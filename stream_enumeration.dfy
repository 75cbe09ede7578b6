/** The enumeration of the reference reader, `CdbElementEnumeration` over an
    `InputStream`: after `elements` has read the end of the record region from
    the header and skipped the rest of it, each `nextElement` reads one
    record's two lengths, key and data from the stream. The stream is the
    file's bytes and the offset up to which they have been read. */
module StreamEnumeration {
  import opened Bytes
  import opened CdbFormat

  /** `in.read() & 0xff`: the byte at `at`, or `-1 & 0xff`, that is 255,
      past the end of the stream. */
  function Masked(input: seq<Byte>, at: int): (r: int)
    ensures 0 <= r < 256
  {
    if 0 <= at < |input| then Value(input[at]) else 255
  }

  /** `readLeInt`: four masked reads put together little-endian. */
  function StreamInt(input: seq<Byte>, at: int): Int32
  {
    Wrap32(Masked(input, at) + 256 * Masked(input, at + 1) + 65536 * Masked(input, at + 2) + 16777216 * Masked(input, at + 3))
  }

  /** The stream offset after reading `n` bytes from `at`: reads stop at the end. */
  function Skipped(input: seq<Byte>, at: nat, n: nat): (r: nat)
    ensures r <= |input| || r == at
  {
    if at + n <= |input| then at + n else if at <= |input| then |input| else at
  }

  /** What `nextElement` ends with: an element, `IllegalArgumentException`
      ("invalid cdb format") when the stream ends inside the key or the data,
      or `NegativeArraySizeException` for a negative length. */
  datatype Delivered = Delivered(e: Element) | Invalid | NegativeSize

  /** `nextElement` from stream offset `at` and data pointer `pos`: what it
      ends with, the new stream offset and the new data pointer. */
  function NextOf(input: seq<Byte>, at: nat, pos: Int32): (Delivered, nat, Int32)
    requires at <= |input|
  {
    var a1 := Skipped(input, at, 4);
    RecordFrom(input, Skipped(input, a1, 4), Wrap32(Wrap32(pos + 4) + 4), StreamInt(input, at), StreamInt(input, a1))
  }

  /** The rest of `nextElement` once the lengths are read: the key, then the
      data, each read into a new array. */
  function RecordFrom(input: seq<Byte>, at: nat, pos: Int32, klen: Int32, dlen: Int32): (Delivered, nat, Int32)
    requires at <= |input|
  {
    if klen < 0 then (NegativeSize, at, pos)
    else if at + klen > |input| then (Invalid, |input|, pos)
    else
      var a := at + klen;
      var p := Wrap32(pos + klen);
      if dlen < 0 then (NegativeSize, a, p)
      else if a + dlen > |input| then (Invalid, |input|, p)
      else (Delivered(Element(input[at..a], input[a..a + dlen])), a + dlen, Wrap32(p + dlen))
  }

  /** With 8 bytes left, `nextElement` reads both lengths whole. */
  lemma NextOfRead(input: seq<Byte>, at: nat, pos: Int32)
    requires at + 8 <= |input|
    ensures NextOf(input, at, pos) == RecordFrom(input, at + 8, Wrap32(Wrap32(pos + 4) + 4), StreamInt(input, at), StreamInt(input, at + 4))
  {
  }

  /** Four bytes inside the stream read as the `int` stored there. */
  lemma StreamIntAt(file: seq<Byte>, q: int)
    requires 0 <= q && q + 4 <= |file|
    ensures StreamInt(file, q) == Wrap32(ReadLe(file, q))
  {
    ReadLeBytes(file, q);
  }

  /** Reading `m` bytes, then `n` more, is reading `m + n`. */
  lemma SkippedTwice(input: seq<Byte>, at: nat, m: nat, n: nat)
    requires at <= |input|
    ensures Skipped(input, Skipped(input, at, m), n) == Skipped(input, at, m + n)
  {
  }

  /** A read after `n` skipped bytes sees the byte `n` places on, or 255
      once the stream has ended. */
  lemma MaskedAfter(input: seq<Byte>, at: nat, n: nat)
    requires at <= |input|
    ensures Masked(input, Skipped(input, at, n)) == Masked(input, at + n)
  {
  }

  /** A stream that ends within the 8 length bytes gives a negative data
      length: its top byte is read as 255. */
  lemma ShortLengths(input: seq<Byte>, at: nat)
    requires at <= |input| < at + 8
    ensures StreamInt(input, Skipped(input, at, 4)) < 0
  {
    var a1 := Skipped(input, at, 4);
    assert Masked(input, a1 + 3) == 255;
  }

  /** An element is delivered only when the stream moves on by its 8 + klen +
      dlen bytes, so a loop of `nextElement` calls moves forward. */
  lemma DeliveredMoves(input: seq<Byte>, at: nat, pos: Int32)
    requires at <= |input| && NextOf(input, at, pos).0.Delivered?
    ensures NextOf(input, at, pos).1 == at + 8 + |NextOf(input, at, pos).0.e.key| + |NextOf(input, at, pos).0.e.data|
    ensures at < NextOf(input, at, pos).1 <= |input|
  {
    if at + 8 > |input| {
      ShortLengths(input, at);
    }
  }

  /** The elements a loop of `hasMoreElements` and `nextElement` gets from
      stream offset `at` and data pointer `pos`, and whether it stops because
      `pos` reached `eod` (rather than because `nextElement` threw). */
  function ElementsFrom(input: seq<Byte>, at: nat, pos: Int32, eod: Int32): (r: (seq<Element>, bool))
    requires at <= |input|
    decreases |input| - at
  {
    if pos >= eod then ([], true)
    else
      var (d, a, p) := NextOf(input, at, pos);
      if d.Delivered? then
        DeliveredMoves(input, at, pos);
        var rest := ElementsFrom(input, a, p, eod);
        ([d.e] + rest.0, rest.1)
      else ([], false)
  }

  /** The loop ends once `pos` reaches `eod`. */
  lemma ElementsEnd(input: seq<Byte>, at: nat, pos: Int32, eod: Int32)
    requires at <= |input| && pos >= eod
    ensures ElementsFrom(input, at, pos, eod) == ([], true)
  {
  }

  /** A delivered element comes first, then those from where it ends. */
  lemma ElementsNext(input: seq<Byte>, at: nat, pos: Int32, eod: Int32, e: Element, a: nat, p: Int32)
    requires at <= |input| && pos < eod && NextOf(input, at, pos) == (Delivered(e), a, p)
    ensures a <= |input|
    ensures ElementsFrom(input, at, pos, eod) == ([e] + ElementsFrom(input, a, p, eod).0, ElementsFrom(input, a, p, eod).1)
  {
    DeliveredMoves(input, at, pos);
  }

  /** An exception from `nextElement` ends the loop. */
  lemma ElementsThrow(input: seq<Byte>, at: nat, pos: Int32, eod: Int32)
    requires at <= |input| && pos < eod && !NextOf(input, at, pos).0.Delivered?
    ensures ElementsFrom(input, at, pos, eod) == ([], false)
  {
  }

  /** The `CdbElementEnumeration` of the reference reader. */
  class CdbElementEnumeration {
    /** The bytes of the file the stream reads. */
    const input: seq<Byte>
    /** How far the stream has been read. */
    var at: nat
    const eod: Int32
    /** The data pointer: where the next record begins. */
    var pos: Int32

    ghost predicate Valid()
      reads this
    {
      at <= |input|
    }

    /** The enumeration over a stream read up to `at`: `pos` starts at 2048. */
    constructor (input: seq<Byte>, at: nat, eod: Int32)
      requires at <= |input|
      ensures Valid() && this.input == input && this.at == at && this.eod == eod && pos == HEADER_SIZE as Int32
    {
      this.input := input;
      this.at := at;
      this.eod := eod;
      pos := HEADER_SIZE as Int32;
    }

    method HasMoreElements() returns (more: bool)
      ensures more <==> pos < eod
    {
      more := pos < eod;
    }

    /** `in.read()`: the next byte, or -1 at the end of the stream. */
    method Read() returns (c: int)
      requires Valid()
      modifies this`at
      ensures Valid() && at == Skipped(input, old(at), 1)
      ensures c == if old(at) < |input| then Value(input[old(at)]) else -1
    {
      if at < |input| {
        c := Value(input[at]);
        at := at + 1;
      } else {
        c := -1;
      }
    }

    /** `in.read(b, off, len)`: up to `len` bytes into `b` from `off`, as many
        as the stream still holds; -1 when it holds none. */
    method ReadInto(b: array<Byte>, off: nat, len: nat) returns (count: int)
      requires Valid() && 0 < len && off + len <= b.Length
      modifies this`at, b
      ensures Valid()
      ensures old(at) == |input| ==> count == -1 && at == old(at) && b[..] == old(b[..])
      ensures old(at) < |input| ==>
        0 < count <= len && at == old(at) + count &&
        b[..] == old(b[..off]) + input[old(at)..at] + old(b[off + count..])
    {
      if at == |input| {
        return -1;
      }
      count := if len <= |input| - at then len else |input| - at;
      CopyInto(b, off, input[at..at + count]);
      at := at + count;
    }

    /** The copy loop of `in.read(b, off, len)`: `src` into `b` from `off`. */
    static method CopyInto(b: array<Byte>, off: nat, src: seq<Byte>)
      requires off + |src| <= b.Length
      modifies b
      ensures b[..] == old(b[..off]) + src + old(b[off + |src|..])
    {
      ghost var original := b[..];
      var i := 0;
      while i < |src|
        invariant 0 <= i <= |src| && b.Length == |original|
        invariant forall j :: 0 <= j < b.Length ==> b[j] == if off <= j < off + i then src[j - off] else original[j]
      {
        b[off + i] := src[i];
        i := i + 1;
      }
      assert b[..] == original[..off] + src + original[off + |src|..];
    }

    /** `readLeInt`: four reads, each masked with 0xff, put together
        little-endian; past the end of the stream each reads as 255. */
    method ReadLeInt() returns (v: Int32)
      requires Valid()
      modifies this`at
      ensures Valid() && at == Skipped(input, old(at), 4) && v == StreamInt(input, old(at))
    {
      ghost var start := at;
      var b0 := ReadMasked();
      MaskedAfter(input, start, 1);
      var b1 := ReadMasked();
      SkippedTwice(input, start, 1, 1);
      MaskedAfter(input, start, 2);
      var b2 := ReadMasked();
      SkippedTwice(input, start, 2, 1);
      MaskedAfter(input, start, 3);
      var b3 := ReadMasked();
      SkippedTwice(input, start, 3, 1);
      v := Wrap32(b0 + 256 * b1 + 65536 * b2 + 16777216 * b3);
    }

    /** `in.read() & 0xff`. */
    method ReadMasked() returns (m: int)
      requires Valid()
      modifies this`at
      ensures Valid() && at == Skipped(input, old(at), 1) && m == Masked(input, old(at))
    {
      var c := Read();
      m := c % 256;
    }

    /** The read loop of `nextElement`: fills a new array of `len` bytes, or
        fails when the stream ends first. */
    method ReadFully(len: Int32) returns (ok: bool, bytes: seq<Byte>)
      requires Valid() && 0 <= len
      modifies this`at
      ensures Valid()
      ensures ok <==> old(at) + len <= |input|
      ensures ok ==> at == old(at) + len && bytes == input[old(at)..at]
      ensures !ok ==> at == |input|
    {
      var b := new Byte[len];
      var off := 0;
      while off < len
        invariant Valid() && 0 <= off <= len && at == old(at) + off
        invariant b[..off] == input[old(at)..at]
      {
        var count := ReadInto(b, off, len - off);
        if count == -1 {
          return false, [];
        }
        off := off + count;
      }
      return true, b[..];
    }

    /** `nextElement`: the key length, the data length, the key and the data,
        `pos` moved past each. */
    method NextElement() returns (r: Delivered)
      requires Valid()
      modifies this`at, this`pos
      ensures Valid() && (r, at, pos) == NextOf(input, old(at), old(pos))
    {
      var klen := ReadLeInt();
      pos := Wrap32(pos + 4);
      var dlen := ReadLeInt();
      pos := Wrap32(pos + 4);
      r := ReadRecord(klen, dlen);
    }

    /** The key, then the data, each into a new array. */
    method ReadRecord(klen: Int32, dlen: Int32) returns (r: Delivered)
      requires Valid()
      modifies this`at, this`pos
      ensures Valid() && (r, at, pos) == RecordFrom(input, old(at), old(pos), klen, dlen)
    {
      if klen < 0 {
        return NegativeSize;
      }
      var ok, key := ReadFully(klen);
      if !ok {
        return Invalid;
      }
      pos := Wrap32(pos + klen);
      if dlen < 0 {
        return NegativeSize;
      }
      var data;
      ok, data := ReadFully(dlen);
      if !ok {
        return Invalid;
      }
      pos := Wrap32(pos + dlen);
      return Delivered(Element(key, data));
    }
  }

  /** `Cdb.elements`: the end of the record region read from the first four
      bytes, the rest of the 2048-byte header skipped; a file too short to
      skip it gives an `IOException`, here `null`. */
  method Elements(input: seq<Byte>) returns (e: CdbElementEnumeration?)
    ensures e == null <==> |input| < HEADER_SIZE
    ensures e != null ==> fresh(e) && e.Valid() && e.input == input && e.at == HEADER_SIZE && e.pos == HEADER_SIZE as Int32
    ensures e != null ==> e.eod == StreamInt(input, 0)
  {
    var at := Skipped(input, 0, 4);
    var eod := StreamInt(input, 0);
    var skipped := Skipped(input, at, HEADER_SIZE - 4) - at;
    if skipped != HEADER_SIZE - 4 {
      return null;
    }
    e := new CdbElementEnumeration(input, at + skipped, eod);
  }
}
