/** The enumeration of the library, `CdbElementEnumeration` over a
    `ReadableByteChannel`: each `nextElement` reads the two lengths with one
    read into an 8-byte buffer, decodes them with `getInt`, then reads the key
    and the data with `readBuffer`. Where the reference enumeration reads the
    lengths byte by byte, this one needs all 8 bytes at once. */
module ChannelEnumeration {
  import opened Bytes
  import opened CdbFormat
  import opened Buffers
  import opened StreamEnumeration

  /** What `nextElement` ends with: what the reference enumeration would end
      with once both lengths are read, or the `BufferUnderflowException` of
      `getInt` when fewer than 8 length bytes were read. */
  datatype Taken = Taken(d: Delivered) | Underflow

  /** The number of length bytes one read into the cleared 8-byte
      `lengthBuffer` gets at channel position `at`. */
  function LengthsGot(input: seq<Byte>, at: nat): (n: nat)
    ensures n <= 8 && (n > 0 ==> at + n <= |input|)
  {
    if at >= |input| then 0 else if 8 <= |input| - at then 8 else |input| - at
  }

  /** `nextElement` from channel position `at` and data pointer `pos`: `pos`
      grows by what the length read returns, -1 at the end of the channel;
      then the key and data are read as in the reference enumeration. */
  function NextOnChannel(input: seq<Byte>, at: nat, pos: Int32): (r: (Taken, nat, Int32))
  {
    var n := LengthsGot(input, at);
    var p := Wrap32(pos + (if n == 0 then -1 else n));
    if n < 8 then (Underflow, at + n, p)
    else
      var (d, a, q) := RecordFrom(input, at + 8, p, Wrap32(ReadLe(input, at)), Wrap32(ReadLe(input, at + 4)));
      (Taken(d), a, q)
  }

  /** `lengthBuffer` after `nextElement`: flipped after the read, and past
      each `int` that `getInt` could decode. */
  function LengthBufferAfter(input: seq<Byte>, at: nat, l: BufferState): (r: BufferState)
    ensures WellFormed(r)
  {
    var f := Flipped(Filled(input, at, Cleared(l)));
    if !HasInt(f) then f else if !HasInt(PastInt(f)) then PastInt(f) else PastInt(PastInt(f))
  }

  /** With 8 bytes left, the library's `nextElement` does what the reference
      one does: both read the same lengths, key and data, and move the
      channel and `pos` alike. */
  lemma NextOnChannelAgrees(input: seq<Byte>, at: nat, pos: Int32)
    requires at + 8 <= |input|
    ensures NextOnChannel(input, at, pos) == (Taken(NextOf(input, at, pos).0), NextOf(input, at, pos).1, NextOf(input, at, pos).2)
  {
    NextOfWhole(input, at, pos);
    NextOnChannelWhole(input, at, pos);
  }

  /** The reference enumeration with 8 bytes left, as one record read. */
  lemma NextOfWhole(input: seq<Byte>, at: nat, pos: Int32)
    requires at + 8 <= |input|
    ensures NextOf(input, at, pos) == RecordFrom(input, at + 8, Wrap32(pos + 8), Wrap32(ReadLe(input, at)), Wrap32(ReadLe(input, at + 4)))
  {
    WrapTwice(pos, 4, 4);
    assert Wrap32(Wrap32(pos + 4) + 4) == Wrap32(pos + 8);
    NextOfRead(input, at, pos);
    StreamIntAt(input, at);
    StreamIntAt(input, at + 4);
  }

  /** The library's enumeration with 8 bytes left, as the same record read. */
  lemma NextOnChannelWhole(input: seq<Byte>, at: nat, pos: Int32)
    requires at + 8 <= |input|
    ensures var r := RecordFrom(input, at + 8, Wrap32(pos + 8), Wrap32(ReadLe(input, at)), Wrap32(ReadLe(input, at + 4)));
            NextOnChannel(input, at, pos) == (Taken(r.0), r.1, r.2)
  {
    assert LengthsGot(input, at) == 8;
  }

  /** With fewer than 8 bytes left, neither enumeration delivers an element:
      the library's throws `BufferUnderflowException`. */
  lemma ShortTail(input: seq<Byte>, at: nat, pos: Int32)
    requires at <= |input| < at + 8
    ensures NextOnChannel(input, at, pos).0 == Underflow
    ensures !NextOf(input, at, pos).0.Delivered?
  {
    if NextOf(input, at, pos).0.Delivered? {
      DeliveredMoves(input, at, pos);
    }
  }

  /** An element is delivered only when the channel moves on by its 8 +
      klen + dlen bytes. */
  lemma TakenMoves(input: seq<Byte>, at: nat, pos: Int32)
    requires NextOnChannel(input, at, pos).0.Taken? && NextOnChannel(input, at, pos).0.d.Delivered?
    ensures at + 8 <= |input|
    ensures NextOnChannel(input, at, pos).0 == Taken(NextOf(input, at, pos).0)
    ensures NextOnChannel(input, at, pos).1 == at + 8 + |NextOnChannel(input, at, pos).0.d.e.key| + |NextOnChannel(input, at, pos).0.d.e.data|
    ensures at < NextOnChannel(input, at, pos).1 <= |input|
  {
    NextOnChannelAgrees(input, at, pos);
    DeliveredMoves(input, at, pos);
  }

  /** The elements a loop of `hasMoreElements` and `nextElement` gets from
      channel position `at` and data pointer `pos`, and whether it stops
      because `pos` reached `eod` (rather than because `nextElement` threw). */
  function ElementsOnChannel(input: seq<Byte>, at: nat, pos: Int32, eod: Int32): (r: (seq<Element>, bool))
    decreases if at <= |input| then |input| - at else 0
  {
    if pos >= eod then ([], true)
    else
      var (t, a, p) := NextOnChannel(input, at, pos);
      if t.Taken? && t.d.Delivered? then
        TakenMoves(input, at, pos);
        var rest := ElementsOnChannel(input, a, p, eod);
        ([t.d.e] + rest.0, rest.1)
      else ([], false)
  }

  /** A delivered element comes first, then those from where it ends. */
  lemma ElementsOnChannelNext(input: seq<Byte>, at: nat, pos: Int32, eod: Int32, e: Element, a: nat, p: Int32)
    requires pos < eod && NextOnChannel(input, at, pos) == (Taken(Delivered(e)), a, p)
    ensures ElementsOnChannel(input, at, pos, eod) == ([e] + ElementsOnChannel(input, a, p, eod).0, ElementsOnChannel(input, a, p, eod).1)
  {
    TakenMoves(input, at, pos);
  }

  /** The `CdbElementEnumeration` of the library. */
  class CdbElementEnumeration {
    /** The channel the records are read from. */
    const channel: Channel
    const eod: Int32
    /** The buffer both lengths are read into. */
    const lengthBuffer: ByteBuffer
    /** The data pointer: where the next record begins. */
    var pos: Int32

    ghost predicate Valid()
      reads this, lengthBuffer
    {
      lengthBuffer.Valid() && |lengthBuffer.content| == 8
    }

    /** The enumeration over `channel`: `pos` starts at 2048. */
    constructor (channel: Channel, eod: Int32)
      ensures Valid() && this.channel == channel && this.eod == eod && pos == HEADER_SIZE as Int32
      ensures fresh(lengthBuffer) && lengthBuffer.State() == Allocated(8)
    {
      this.channel := channel;
      this.eod := eod;
      lengthBuffer := new ByteBuffer.Allocate(8);
      pos := HEADER_SIZE as Int32;
    }

    method HasMoreElements() returns (more: bool)
      ensures more <==> pos < eod
    {
      more := pos < eod;
    }

    /** `nextElement`: both lengths, then the key and the data. */
    method NextElement() returns (r: Taken)
      requires Valid()
      modifies channel`at, this`pos, lengthBuffer
      ensures Valid() && (r, channel.at, pos) == NextOnChannel(channel.input, old(channel.at), old(pos))
      ensures lengthBuffer.State() == LengthBufferAfter(channel.input, old(channel.at), old(lengthBuffer.State()))
    {
      var ok, klen, dlen := ReadLengths();
      if !ok {
        return Underflow;
      }
      var d := ReadRecord(klen, dlen);
      return Taken(d);
    }

    /** One read into the cleared `lengthBuffer`, `pos` moved by what it
        returns, then `getInt` twice; `ok` is false for the
        `BufferUnderflowException` of either. */
    method ReadLengths() returns (ok: bool, klen: Int32, dlen: Int32)
      requires Valid()
      modifies channel`at, this`pos, lengthBuffer
      ensures Valid() && lengthBuffer.State() == LengthBufferAfter(channel.input, old(channel.at), old(lengthBuffer.State()))
      ensures channel.at == old(channel.at) + LengthsGot(channel.input, old(channel.at))
      ensures pos == Wrap32(old(pos) + (if LengthsGot(channel.input, old(channel.at)) == 0 then -1 else LengthsGot(channel.input, old(channel.at))))
      ensures ok <==> LengthsGot(channel.input, old(channel.at)) == 8
      ensures ok ==> klen == Wrap32(ReadLe(channel.input, old(channel.at))) && dlen == Wrap32(ReadLe(channel.input, old(channel.at) + 4))
    {
      ghost var start := channel.at;
      FillLengths();
      dlen := 0;
      ok, klen := lengthBuffer.GetInt();
      if !ok {
        return;
      }
      ok, dlen := lengthBuffer.GetInt();
      if !ok {
        return;
      }
      LengthsRead(channel.input, start, lengthBuffer.content);
    }

    /** `lengthBuffer.clear()`, one channel read into it with `pos` moved by
        what the read returns, then `lengthBuffer.flip()`. */
    method FillLengths()
      requires Valid()
      modifies channel`at, this`pos, lengthBuffer
      ensures Valid() && lengthBuffer.State() == Flipped(Filled(channel.input, old(channel.at), Cleared(old(lengthBuffer.State()))))
      ensures channel.at == old(channel.at) + LengthsGot(channel.input, old(channel.at))
      ensures pos == Wrap32(old(pos) + (if LengthsGot(channel.input, old(channel.at)) == 0 then -1 else LengthsGot(channel.input, old(channel.at))))
    {
      lengthBuffer.Clear();
      var count := channel.Read(lengthBuffer);
      pos := Wrap32(pos + count);
      lengthBuffer.Flip();
    }

    /** The key, then the data, each read by `readBuffer`. */
    method ReadRecord(klen: Int32, dlen: Int32) returns (r: Delivered)
      requires channel.at <= |channel.input|
      modifies channel`at, this`pos
      ensures (r, channel.at, pos) == RecordFrom(channel.input, old(channel.at), old(pos), klen, dlen)
    {
      if klen < 0 {
        return NegativeSize;
      }
      var key := ReadBuffer(klen);
      if key.None? {
        return Invalid;
      }
      if dlen < 0 {
        return NegativeSize;
      }
      var data := ReadBuffer(dlen);
      if data.None? {
        return Invalid;
      }
      return Delivered(Element(key.value, data.value));
    }

    /** `readBuffer(len)`: reads into a new buffer of `len` bytes until it
        is full; the end of the channel first is `IllegalArgumentException`
        ("Invalid cdb format"), here `None`. The `NegativeArraySizeException`
        of a negative `len` is left to the caller. */
    method ReadBuffer(len: Int32) returns (bytes: Option<seq<Byte>>)
      requires 0 <= len && channel.at <= |channel.input|
      modifies channel`at, this`pos
      ensures bytes.Some? <==> old(channel.at) + len <= |channel.input|
      ensures bytes.Some? ==> channel.at == old(channel.at) + len && bytes.value == channel.input[old(channel.at)..channel.at] && pos == Wrap32(old(pos) + len)
      ensures bytes.None? ==> channel.at == |channel.input| && pos == old(pos)
    {
      var buffer := new ByteBuffer.Allocate(len);
      var off := 0;
      while off < len
        invariant buffer.Valid() && buffer.position == off && buffer.limit == len == |buffer.content|
        invariant channel.at == old(channel.at) + off <= |channel.input| && pos == old(pos)
        invariant buffer.content[..buffer.position] == channel.input[old(channel.at)..channel.at]
        decreases len - off
      {
        ghost var before, at := buffer.State(), channel.at;
        var count := channel.Read(buffer);
        if count == -1 {
          return None;
        }
        GrownPrefix(channel.input, old(channel.at), at, before, buffer.State());
        off := off + count;
      }
      pos := Wrap32(pos + len);
      buffer.Flip();
      return Some(buffer.content);
    }
  }

  /** A read that moves the buffer's position on extends the bytes before
      the position by the bytes read. */
  lemma GrownPrefix(input: seq<Byte>, start: nat, at: nat, b: BufferState, r: BufferState)
    requires WellFormed(b) && r == Filled(input, at, b) && Got(input, at, b) > 0
    requires start <= at && b.content[..b.position] == input[start..at]
    ensures r.content[..r.position] == input[start..at + Got(input, at, b)]
  {
    var n := Got(input, at, b);
    assert r.content[..r.position] == r.content[..b.position] + r.content[b.position..r.position];
    assert input[start..at + n] == input[start..at] + input[at..at + n];
  }

  /** The two lengths decoded from the buffer the 8 length bytes were read into. */
  lemma LengthsRead(input: seq<Byte>, at: nat, content: seq<Byte>)
    requires at + 8 <= |input| && |content| == 8 && content[0..8] == input[at..at + 8]
    ensures ReadLe(content, 0) == ReadLe(input, at) && ReadLe(content, 4) == ReadLe(input, at + 4)
  {
    assert content[0..4] == input[at..at + 4];
    assert content[4..8] == input[at + 4..at + 8];
    ReadLeSlice(content, input, 0, at);
    ReadLeSlice(content, input, 4, at + 4);
  }
}
