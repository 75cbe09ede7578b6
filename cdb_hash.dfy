/** The cdb hash: start at 5381, then for every byte multiply by 33 and xor the
    byte in, keeping 32 bits. Java's `long` arithmetic is written out on
    mathematical integers: only the low 32 bits survive the final mask, and
    those are the Euclidean remainder modulo 2^32 of the exact result. */
module CdbHash {
  import opened Bytes
  import opened Buffers

  const CDB_HASHSTART: U32 := 5381

  /** Bitwise exclusive or of two naturals, one bit at a time from the bottom. */
  function Xor(a: nat, b: nat): (r: nat)
    decreases a + b
  {
    if a == 0 then b
    else if b == 0 then a
    else 2 * Xor(a / 2, b / 2) + (if a % 2 == b % 2 then 0 else 1)
  }

  /** Exclusive or of two `k`-bit values is a `k`-bit value. */
  lemma {:induction false} XorBound(a: nat, b: nat, k: nat)
    requires a < Pow2(k) && b < Pow2(k)
    ensures Xor(a, b) < Pow2(k)
    decreases a + b
  {
    if a != 0 && b != 0 {
      assert k > 0;
      XorBound(a / 2, b / 2, k - 1);
    }
  }

  function Pow2(k: nat): (r: nat)
    ensures r > 0
  {
    if k == 0 then 1 else 2 * Pow2(k - 1)
  }

  lemma {:induction false} Pow2Add8(k: nat)
    ensures Pow2(k + 8) == 256 * Pow2(k)
  {
    assert Pow2(k + 8) == 2 * Pow2(k + 7) == 4 * Pow2(k + 6) == 8 * Pow2(k + 5) == 16 * Pow2(k + 4);
    assert Pow2(k + 4) == 2 * Pow2(k + 3) == 4 * Pow2(k + 2) == 8 * Pow2(k + 1) == 16 * Pow2(k);
  }

  lemma Pow2of32()
    ensures Pow2(32) == TWO_32
  {
    Pow2Add8(0);
    Pow2Add8(8);
    Pow2Add8(16);
    Pow2Add8(24);
  }

  /** The low 32 bits of `x ^ y` for two Java `long`s. */
  function Xor32(x: int, y: int): (r: U32)
  {
    Pow2of32();
    XorBound(Unsigned(x), Unsigned(y), 32);
    Xor(Unsigned(x), Unsigned(y))
  }

  /** `hashAdd(hash, b)`: `hash + (hash << 5)` is `33 * hash` (modulo 2^64,
      which the mask makes irrelevant), then `^ b`, then `& 0xffffffff`. */
  function HashAdd(hash: int, b: int): (r: U32)
  {
    Xor32(hash * 33, b)
  }

  /** The hash of a key, as the unsigned 32-bit value `hash` returns: a left
      fold of `hashAdd` over the bytes, each taken as an unsigned value. */
  function Hash(s: seq<Byte>): (r: U32)
    decreases |s|
  {
    if s == [] then CDB_HASHSTART else HashAdd(Hash(s[..|s| - 1]), Value(s[|s| - 1]))
  }

  /** Appending a byte to a key is one more `hashAdd`. */
  lemma HashSnoc(s: seq<Byte>, b: Byte)
    ensures Hash(s + [b]) == HashAdd(Hash(s), Value(b))
  {
    assert (s + [b])[..|s|] == s;
  }

  lemma MulAtLeast(t: int, d: int)
    requires t >= 1 && d > 0
    ensures t * d >= d
  {
    assert t * d == (t - 1) * d + d;
  }

  /** Quotient and remainder are the only ones. */
  lemma DivModUnique(x: nat, d: nat, q: nat, r: nat)
    requires d > 0 && r < d && x == q * d + r
    ensures x / d == q && x % d == r
  {
    var q', r' := x / d, x % d;
    assert x == q' * d + r';
    assert (q - q') * d == r' - r;
    if q > q' {
      MulAtLeast(q - q', d);
    } else if q < q' {
      MulAtLeast(q' - q, d);
    }
  }

  /** Division by `2 * d` is division by 2, then by `d`. */
  lemma HalveDivMod(a: nat, d: nat)
    requires d > 0
    ensures (a / 2) % d == (a % (2 * d)) / 2
    ensures (a % (2 * d)) % 2 == a % 2
  {
    var q, lo := a / (2 * d), a % (2 * d);
    assert a == q * (2 * d) + lo;
    var h := q * d + lo / 2;
    assert a == h * 2 + lo % 2;
    DivModUnique(a, 2, h, lo % 2);
    DivModUnique(a / 2, d, q, lo / 2);
  }

  /** Xoring a `k`-bit value into `a` leaves the bits of `a` above the lowest
      `k` alone: the result differs from `a` only in its low part. */
  lemma {:induction false} XorHigh(a: nat, b: nat, k: nat)
    requires b < Pow2(k)
    ensures Xor(a, b) + a % Pow2(k) == a + Xor(a % Pow2(k), b)
    decreases k
  {
    var lo := a % Pow2(k);
    if a == 0 {
      DivModUnique(0, Pow2(k), 0, 0);
    } else if b == 0 {
      assert Xor(lo, b) == lo;
    } else {
      var p' := Pow2(k - 1);
      assert Pow2(k) == 2 * p';
      HalveDivMod(a, p');
      assert (a / 2) % p' == lo / 2 && lo % 2 == a % 2;
      XorHigh(a / 2, b / 2, k - 1);
    }
  }

  /** The low byte of `33 * h`, masked to 32 bits, is that of `33 * (h & 0xff)`. */
  lemma LowByteTimes33(h: int)
    ensures Unsigned(h * 33) % 256 == (33 * (h % 256)) % 256
  {
    var u := Unsigned(h * 33);
    var m, r := h / 256, h % 256;
    var q := (h * 33) / TWO_32;
    assert h * 33 == TWO_32 * q + u;
    assert h * 33 == 256 * (33 * m) + 33 * r;
    var t, s := (33 * r) / 256, (33 * r) % 256;
    var k := 33 * m - 16777216 * q + t;
    assert u == 256 * k + s;
    DivModUnique(u, 256, k, s);
  }

  /** The bucket (the low byte) of the hash after one more byte depends only
      on the bucket before it and on the byte. */
  lemma HashAddLowByte(h: int, c: nat)
    requires c < 256
    ensures HashAdd(h, c) % 256 == Xor((33 * (h % 256)) % 256, c)
  {
    Pow2Add8(0);
    assert Pow2(8) == 256;
    UnsignedOfU32(c);
    var u := Unsigned(h * 33);
    XorHigh(u, c, 8);
    XorBound(u % 256, c, 8);
    var x := Xor(u % 256, c);
    assert HashAdd(h, c) == Xor(u, c);
    assert u - u % 256 == 256 * (u / 256);
    DivModUnique(HashAdd(h, c), 256, u / 256, x);
    LowByteTimes33(h);
  }

  /** The low byte of the hash, computed on eight bits only: `hashAdd` on
      the low byte of the hash so far gives the low byte of the next one. */
  function LowHash(s: seq<Byte>): (r: nat)
    decreases |s|
  {
    if s == [] then CDB_HASHSTART % 256
    else Xor((33 * LowHash(s[..|s| - 1])) % 256, Value(s[|s| - 1]))
  }

  /** The low byte of a key's hash is what `LowHash` computes. */
  lemma {:induction false} LowHashIsLowByte(s: seq<Byte>)
    ensures Hash(s) % 256 == LowHash(s)
    decreases |s|
  {
    if s != [] {
      var init := s[..|s| - 1];
      LowHashIsLowByte(init);
      HashAddLowByte(Hash(init), Value(s[|s| - 1]));
    }
  }

  /** `hash(ByteBuffer)`: consumes the remaining bytes of the buffer and
      returns their hash. */
  method HashBuffer(bytes: ByteBuffer) returns (r: U32)
    requires bytes.Valid()
    modifies bytes`position
    ensures bytes.Valid() && bytes.position == bytes.limit
    ensures r == Hash(bytes.content[old(bytes.position)..bytes.limit])
  {
    var hash: int := CDB_HASHSTART;
    ghost var start := bytes.position;
    while bytes.position < bytes.limit
      invariant bytes.Valid() && start <= bytes.position
      invariant hash == Hash(bytes.content[start..bytes.position])
      decreases bytes.limit - bytes.position
    {
      ghost var done := bytes.content[start..bytes.position];
      var b := bytes.Get();
      assert bytes.content[start..bytes.position] == done + [b];
      HashSnoc(done, b);
      hash := HashAdd(hash, Value(b));
    }
    r := hash;
  }
}
