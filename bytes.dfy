/** Bytes, Java's 32-bit integers and the little-endian integer layout that every
    fixed-width field of a cdb file uses. */
module Bytes {

  /** A byte as it is stored in a file or a stream: eight bits, which the
      cdb code always reads as the unsigned value `b & 0xff`. */
  type Byte = bv8

  /** A Java `int`. */
  type Int32 = x: int | -0x8000_0000 <= x < 0x8000_0000

  /** A 32-bit unsigned quantity (a Java `long` masked with 0xffffffff). */
  type U32 = x: int | 0 <= x < 0x1_0000_0000

  const TWO_32: int := 0x1_0000_0000
  const INT_MAX: int := 0x7fff_ffff

  /** The Java `int` with the same low 32 bits as `x`: what int arithmetic
      (`+`, `*`, `<<`) and a `(int)` cast leave of a mathematical result. */
  function Wrap32(x: int): (r: Int32)
    ensures (r - x) % TWO_32 == 0
    ensures -0x8000_0000 <= x <= INT_MAX ==> r == x
  {
    var m := x % TWO_32;
    if m <= INT_MAX then m else m - TWO_32
  }

  /** The 32-bit pattern of `x`, read as unsigned (`x & 0xffffffffL`). */
  function Unsigned(x: int): (r: U32)
    ensures (r - x) % TWO_32 == 0
  {
    x % TWO_32
  }

  /** A value that already fits in 32 bits is its own pattern. */
  lemma UnsignedOfU32(x: int)
    requires 0 <= x < TWO_32
    ensures Unsigned(x) == x
  {
  }

  /** Masking an addend before a masked sum changes nothing. */
  lemma UnsignedAdd(a: int, b: int)
    ensures Unsigned(a + Unsigned(b)) == Unsigned(a + b)
  {
    var q := b / TWO_32;
    assert b == q * TWO_32 + Unsigned(b);
    assert a + b == (a + Unsigned(b)) + q * TWO_32;
  }

  lemma WrapUnsigned(x: int)
    ensures Unsigned(Wrap32(x)) == Unsigned(x)
    ensures Wrap32(Unsigned(x)) == Wrap32(x)
  {
  }

  /** Two `int` additions in a row wrap like one. */
  lemma WrapTwice(x: int, a: int, b: int)
    ensures Wrap32(Wrap32(x + a) + b) == Wrap32(x + (a + b))
  {
    var k := (Wrap32(x + a) - (x + a)) / TWO_32;
    assert Wrap32(x + a) + b == x + (a + b) + k * TWO_32;
    assert (x + (a + b) + k * TWO_32) % TWO_32 == (x + (a + b)) % TWO_32;
  }

  /** The unsigned value of a byte, `b & 0xff`. */
  function Value(b: Byte): (r: int)
    ensures 0 <= r < 256
  {
    b as int
  }

  /** The byte holding a value below 256 (a cast `(byte) x`). */
  function ByteOf(x: int): (b: Byte)
    requires 0 <= x < 256
    ensures Value(b) == x
  {
    ByteOfCast(x);
    x as Byte
  }

  /** The cast keeps a value below 256: the byte is the one put together
      from the value's two hexadecimal digits. */
  lemma ByteOfCast(x: int)
    requires 0 <= x < 256
    ensures (x as Byte) as int == x
  {
    var hi, lo := Nibble(x / 16), Nibble(x % 16);
    NibblesCombine(hi, lo);
    var b := hi * 16 + lo;
    assert b as int == x;
    assert x as Byte == b;
  }

  /** The byte holding a value below 16. */
  function Nibble(n: int): (b: Byte)
    requires 0 <= n < 16
    ensures Value(b) == n
  {
    if n < 8 then
      if n < 4 then (if n < 2 then (if n == 0 then 0 else 1) else (if n == 2 then 2 else 3))
      else (if n < 6 then (if n == 4 then 4 else 5) else (if n == 6 then 6 else 7))
    else
      if n < 12 then (if n < 10 then (if n == 8 then 8 else 9) else (if n == 10 then 10 else 11))
      else (if n < 14 then (if n == 12 then 12 else 13) else (if n == 14 then 14 else 15))
  }

  /** Two hexadecimal digits make the byte `16 * hi + lo`. */
  lemma NibblesCombine(hi: Byte, lo: Byte)
    requires Value(hi) < 16 && Value(lo) < 16
    ensures Value(hi * 16 + lo) == 16 * Value(hi) + Value(lo)
  {
  }

  /** The `n` little-endian base-256 digits of `u`: `u & 0xff`, then
      `(u >>> 8) & 0xff`, and so on. */
  function LeDigits(u: nat, n: nat): (r: seq<Byte>)
    ensures |r| == n
  {
    if n == 0 then [] else [ByteOf(u % 256)] + LeDigits(u / 256, n - 1)
  }

  /** The unsigned value of the first `n` bytes of `s`, read low byte first. */
  function LeValue(s: seq<Byte>, n: nat): (r: nat)
    requires n <= |s|
  {
    if n == 0 then 0 else Value(s[0]) + 256 * LeValue(s[1..], n - 1)
  }

  /** The four bytes `writeLeInt` writes for `v`: its low 32 bits, low byte first. */
  function LeBytes(v: int): (r: seq<Byte>)
    ensures |r| == 4
  {
    LeDigits(Unsigned(v), 4)
  }

  /** The four bytes of `LeBytes(v)` one by one: `v & 0xff`, `(v >>> 8) & 0xff`,
      `(v >>> 16) & 0xff` and `(v >>> 24) & 0xff`. */
  lemma LeBytesDigits(v: int)
    ensures LeBytes(v) == [ByteOf(Unsigned(v) % 256), ByteOf(Unsigned(v) / 256 % 256),
                           ByteOf(Unsigned(v) / 256 / 256 % 256), ByteOf(Unsigned(v) / 256 / 256 / 256 % 256)]
  {
    var u := Unsigned(v);
    assert LeDigits(u / 256 / 256 / 256, 1) == [ByteOf(u / 256 / 256 / 256 % 256)] + LeDigits(u / 256 / 256 / 256 / 256, 0);
    assert LeDigits(u / 256 / 256, 2) == [ByteOf(u / 256 / 256 % 256)] + LeDigits(u / 256 / 256 / 256, 1);
    assert LeDigits(u / 256, 3) == [ByteOf(u / 256 % 256)] + LeDigits(u / 256 / 256, 2);
  }

  /** The unsigned little-endian value stored at `s[off..off + 4]`. */
  function ReadLe(s: seq<Byte>, off: int): (r: U32)
    requires 0 <= off && off + 4 <= |s|
  {
    LeValueBound(s[off..off + 4]);
    LeValue(s[off..off + 4], 4)
  }

  lemma LeValueBound(s: seq<Byte>)
    requires |s| == 4
    ensures LeValue(s, 4) < TWO_32
  {
    var s1, s2, s3 := s[1..], s[1..][1..], s[1..][1..][1..];
    assert LeValue(s, 4) == Value(s[0]) + 256 * LeValue(s1, 3);
    assert LeValue(s1, 3) == Value(s1[0]) + 256 * LeValue(s2, 2);
    assert LeValue(s2, 2) == Value(s2[0]) + 256 * LeValue(s3, 1);
    assert LeValue(s3, 1) == Value(s3[0]) + 256 * LeValue(s3[1..], 0);
  }

  /** Reading back `n` digits: the lowest digit plus 256 times the rest. */
  lemma LeDigitsStep(u: nat, n: nat)
    requires n > 0
    ensures LeValue(LeDigits(u, n), n) == u % 256 + 256 * LeValue(LeDigits(u / 256, n - 1), n - 1)
  {
    var s := LeDigits(u, n);
    assert s[1..] == LeDigits(u / 256, n - 1);
  }

  /** `u` recomposed from its four base-256 digits. */
  lemma Digits(u: U32)
    ensures u == u % 256 + 256 * ((u / 256) % 256 + 256 * ((u / 256 / 256) % 256 + 256 * (u / 256 / 256 / 256)))
    ensures u / 256 / 256 / 256 < 256
  {
  }

  /** Reading back the four digits of `u`. */
  lemma LeDigitsValue(u: U32)
    ensures LeValue(LeDigits(u, 4), 4) == u % 256 + 256 * ((u / 256) % 256 + 256 * ((u / 256 / 256) % 256 + 256 * (u / 256 / 256 / 256)))
  {
    LeDigitsStep(u, 4);
    LeDigitsStep(u / 256, 3);
    LeDigitsStep(u / 256 / 256, 2);
    LeDigitsStep(u / 256 / 256 / 256, 1);
  }

  /** Writing a value and reading it back gives its 32-bit pattern. */
  lemma LeBytesValue(v: int)
    ensures ReadLe(LeBytes(v), 0) == Unsigned(v)
  {
    LeDigitsValue(Unsigned(v));
    Digits(Unsigned(v));
    assert LeBytes(v)[0..4] == LeBytes(v);
  }

  /** `ReadLe` only looks at the four bytes it is given. */
  lemma ReadLeSlice(s: seq<Byte>, t: seq<Byte>, off: int, at: int)
    requires 0 <= off && off + 4 <= |s| && 0 <= at && at + 4 <= |t|
    requires s[off..off + 4] == t[at..at + 4]
    ensures ReadLe(s, off) == ReadLe(t, at)
  {
    assert s[off] == s[off..off + 4][0] == t[at..at + 4][0] == t[at];
    assert s[off + 1] == s[off..off + 4][1] == t[at..at + 4][1] == t[at + 1];
    assert s[off + 2] == s[off..off + 4][2] == t[at..at + 4][2] == t[at + 2];
    assert s[off + 3] == s[off..off + 4][3] == t[at..at + 4][3] == t[at + 3];
  }

  /** The value found where `LeBytes(v)` was stored inside a larger sequence. */
  lemma ReadLeAt(s: seq<Byte>, off: int, v: int)
    requires 0 <= off && off + 4 <= |s|
    requires s[off..off + 4] == LeBytes(v)
    ensures ReadLe(s, off) == Unsigned(v)
  {
    LeBytesValue(v);
    ReadLeSlice(s, LeBytes(v), off, 0);
  }

  /** The four bytes at `off` combined as `b0 | b1 << 8 | b2 << 16 | b3 << 24`:
      the shifted bytes occupy disjoint bits, so the `|` is a sum. */
  lemma ReadLeBytes(s: seq<Byte>, off: int)
    requires 0 <= off && off + 4 <= |s|
    ensures ReadLe(s, off) == Value(s[off]) + 256 * Value(s[off + 1]) + 65536 * Value(s[off + 2]) + 16777216 * Value(s[off + 3])
  {
    var t := s[off..off + 4];
    var t1, t2, t3 := t[1..], t[1..][1..], t[1..][1..][1..];
    assert t[0] == s[off] && t1[0] == s[off + 1] && t2[0] == s[off + 2] && t3[0] == s[off + 3];
    assert LeValue(t, 4) == Value(t[0]) + 256 * LeValue(t1, 3);
    assert LeValue(t1, 3) == Value(t1[0]) + 256 * LeValue(t2, 2);
    assert LeValue(t2, 2) == Value(t2[0]) + 256 * LeValue(t3, 1);
    assert LeValue(t3, 1) == Value(t3[0]) + 256 * LeValue(t3[1..], 0);
  }

  /** A byte as a Java `byte`: the values 128 to 255 read as -128 to -1. */
  function Signed(b: Byte): (r: int)
    ensures -128 <= r < 128 && (r + 256) % 256 == Value(b)
  {
    if Value(b) < 128 then Value(b) else Value(b) - 256
  }

  /** Java's `%` on `int`s: the quotient is truncated towards zero, so the
      remainder takes the sign of the dividend. */
  function JavaRem(a: int, b: int): (r: int)
    requires b != 0
    ensures a >= 0 ==> 0 <= r < (if b < 0 then -b else b)
  {
    var m := if b < 0 then -b else b;
    if a >= 0 then a % m else -((-a) % m)
  }

  /** `n` zero bytes. */
  function Zeros(n: nat): (r: seq<Byte>)
    ensures |r| == n && forall i :: 0 <= i < n ==> r[i] == 0
  {
    if n == 0 then [] else Zeros(n - 1) + [0]
  }
}
