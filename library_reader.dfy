/** The reader `Cdb` of the library (`io.github.duckasteroid.cdb`), as it is
    written: the constructor decodes the header into 256 `SlotEntry`s through
    a `ByteBuffer`, and `findnext` walks the key's table through a file
    channel and an 8-byte `local` buffer. Two things set it apart from the
    reference reader: the slot's `int` hash is compared with the `long` key
    hash, and `local` is not cleared before a slot is read (only before a
    record is). Both are modelled as written; `LibraryFindings` states what
    they lead to. */
module LibraryReader {
  import opened Bytes
  import opened CdbHash
  import opened CdbFormat
  import opened Buffers
  import opened CdbReader
  import opened ChannelEnumeration

  /** A header entry: the position of a bucket's table and its slot count. */
  datatype SlotEntry = SlotEntry(position: Int32, length: Int32)

  /** The first `n` header entries, each two little-endian `int`s. */
  function EntriesOf(file: seq<Byte>, n: nat): (r: seq<SlotEntry>)
    requires 8 * n <= |file|
    ensures |r| == n
  {
    if n == 0 then []
    else EntriesOf(file, n - 1) + [SlotEntry(Wrap32(ReadLe(file, 8 * (n - 1))), Wrap32(ReadLe(file, 8 * (n - 1) + 4)))]
  }

  /** `slotTable` after the constructor: the 256 entries, or `null` unless
      the file is longer than the 2048-byte header. */
  function SlotEntries(file: seq<Byte>): (r: Option<seq<SlotEntry>>)
    ensures r.Some? ==> |r.value| == BUCKETS
  {
    if |file| > HEADER_SIZE then Some(EntriesOf(file, BUCKETS)) else None
  }

  /** Entry `b` is the `b`-th pair of header `int`s. */
  lemma {:induction false} EntriesOfAt(file: seq<Byte>, n: nat, b: nat)
    requires 8 * n <= |file| && b < n
    ensures EntriesOf(file, n)[b] == SlotEntry(Wrap32(ReadLe(file, 8 * b)), Wrap32(ReadLe(file, 8 * b + 4)))
  {
    if b < n - 1 {
      EntriesOfAt(file, n - 1, b);
    }
  }

  /** Both readers decode the header alike: entry `b` holds the `int`s the
      reference reader keeps at `2b` and `2b + 1`; the library only leaves
      the table `null` for a file of exactly 2048 bytes as well. */
  lemma EntriesAgree(file: seq<Byte>, b: nat)
    requires b < BUCKETS
    ensures SlotEntries(file).Some? <==> SlotTable(file).Some? && |file| != HEADER_SIZE
    ensures SlotEntries(file).Some? ==> SlotEntries(file).value[b] == SlotEntry(SlotTable(file).value[2 * b], SlotTable(file).value[2 * b + 1])
  {
    if |file| > HEADER_SIZE {
      EntriesOfAt(file, BUCKETS, b);
      LookupHeaderInts(file, 2 * b);
      LookupHeaderInts(file, 2 * b + 1);
    }
  }

  /** The header `int` number `k` the reference reader keeps. */
  lemma LookupHeaderInts(file: seq<Byte>, k: nat)
    requires HEADER_SIZE <= |file| && k < 2 * BUCKETS
    ensures SlotTable(file).value[k] == Wrap32(ReadLe(file, 4 * k))
  {
    HeaderIntsNth(file, 2 * BUCKETS, k);
  }

  lemma {:induction false} HeaderIntsNth(file: seq<Byte>, n: nat, k: nat)
    requires 4 * n <= |file| && k < n
    ensures HeaderInts(file, n)[k] == Wrap32(ReadLe(file, 4 * k))
  {
    if k < n - 1 {
      HeaderIntsNth(file, n - 1, k);
    }
  }

  /** The search state: the slots examined, the key's `long` hash, the
      table's slot count, and the `long` positions of the table and of the
      next slot. The `long`s never overflow here, so they are integers. */
  datatype SearchState = SearchState(loop: Int32, khash: int, hslots: Int32, hpos: int, kpos: int)

  /** One more slot examined: `loop += 1` and `kpos += 8`, back to `hpos`
      when it equals `hpos + (hslots << 3)`, a shift in `int`. */
  function Advance(s: SearchState): (r: SearchState)
    requires s.loop < s.hslots
    ensures r.loop == s.loop + 1 && r.khash == s.khash && r.hslots == s.hslots && r.hpos == s.hpos
  {
    var k := s.kpos + 8;
    s.(loop := s.loop + 1, kpos := if k == s.hpos + Wrap32(s.hslots * 8) then s.hpos else k)
  }

  /** The bytes a read at `at` puts into a new buffer of `n` bytes. */
  function Fetched(file: seq<Byte>, at: nat, n: nat): (r: seq<Byte>)
    ensures |r| == Got(file, at, Allocated(n)) && (|r| > 0 ==> at + |r| <= |file|)
  {
    var g := Got(file, at, Allocated(n));
    if g == 0 then [] else file[at..at + g]
  }

  /** What the body of the loop does once a slot's hash matches: go on to
      the next slot with `local` as it is now, or end the call. */
  datatype Checked = Passed(local: BufferState) | Done(found: Found)

  /** The record at `pos`, read with channel position `at` and buffer
      `local`: seek to `pos` (a negative position throws
      `IllegalArgumentException`), clear `local`, read and flip it, take
      `klen`; a `klen` other than the key's length passes. Then `dlen`, the
      stored key read into a new `klen`-byte buffer, compared with the key;
      then the data into a new `dlen`-byte buffer (a negative `dlen` throws
      `IllegalArgumentException`). A `getInt` past the bytes read throws
      `BufferUnderflowException`. The second component is the channel
      position afterwards. */
  function RecordChecked(file: seq<Byte>, key: seq<Byte>, pos: Int32, local: BufferState, at: nat): (r: (Checked, nat))
    requires WellFormed(local)
    ensures r.0.Passed? ==> WellFormed(r.0.local) && |r.0.local.content| == |local.content|
  {
    if pos < 0 then (Done(Thrown), at)
    else
      var l := Flipped(Filled(file, pos, Cleared(local)));
      var a := pos + Got(file, pos, Cleared(local));
      if !HasInt(l) then (Done(Thrown), a)
      else if IntOf(l) != |key| then (Passed(PastInt(l)), a)
      else if !HasInt(PastInt(l)) then (Done(Thrown), a)
      else KeyAndData(file, key, IntOf(PastInt(l)), PastInt(PastInt(l)), a)
  }

  /** The rest of the record once both lengths are taken, with `local` left
      as it is: the stored key, then the data. */
  function KeyAndData(file: seq<Byte>, key: seq<Byte>, dlen: Int32, local: BufferState, at: nat): (r: (Checked, nat))
    ensures r.0.Passed? ==> r.0.local == local
  {
    var k := Fetched(file, at, |key|);
    if k != key then (Passed(local), at + |k|)
    else if dlen < 0 then (Done(Thrown), at + |k|)
    else
      var d := Fetched(file, at + |k|, dlen);
      (Done(Hit(d)), at + |k| + |d|)
  }

  /** The loop of `findnext` as written, from state `s` with buffer `local`
      and channel position `at`: seek to `kpos` (negative: thrown), read
      into `local` as it is, flip, take `h` and `pos`; `pos == 0` ends the
      call with `null`; otherwise advance, skip a slot whose `h` differs
      from the `long` `khash`, and examine the record of one that does not.
      The result holds the channel position afterwards. */
  function WalkAsWritten(file: seq<Byte>, key: seq<Byte>, s: SearchState, local: BufferState, at: nat): (r: (Found, SearchState, nat))
    requires WellFormed(local)
    decreases s.hslots - s.loop
  {
    if s.loop >= s.hslots then (Miss, s, at)
    else if s.kpos < 0 then (Thrown, s, at)
    else
      var l := Flipped(Filled(file, s.kpos, local));
      var a := s.kpos + Got(file, s.kpos, local);
      if !HasInt(l) || !HasInt(PastInt(l)) then (Thrown, s, a)
      else if IntOf(PastInt(l)) == 0 then (Miss, s, a)
      else if IntOf(l) != s.khash then WalkAsWritten(file, key, Advance(s), PastInt(PastInt(l)), a)
      else
        var (c, a') := RecordChecked(file, key, IntOf(PastInt(l)), PastInt(PastInt(l)), a);
        match c
        case Passed(l') => WalkAsWritten(file, key, Advance(s), l', a')
        case Done(f) => (f, Advance(s), a')
  }

  /** `findnext(key)` from state `s` with the key buffer `key` and channel
      position `at`: nothing without a header; on the first call of a
      search the key's remaining bytes are hashed and the buffer cleared,
      an entry of length 0 ends the call (with `hslots` 0), otherwise the
      walk starts at `hpos + 8 * ((u >>> 8) % hslots)`; later calls go on
      from `s`. Every call reads slots with a new 8-byte `local`. The result
      holds the key buffer and the channel position afterwards. */
  function SearchedAsWritten(file: seq<Byte>, entries: Option<seq<SlotEntry>>, key: BufferState, s: SearchState, at: nat): (r: (Found, SearchState, BufferState, nat))
    requires WellFormed(key) && (entries.Some? ==> |entries.value| == BUCKETS)
  {
    if entries.None? then (Miss, s, key, at)
    else
      var (go, s', k) := Begun(entries.value, key, s);
      if !go then (Miss, s', k, at)
      else
        var (f, p, a) := WalkAsWritten(file, k.content[k.position..k.limit], s', Allocated(8), at);
        (f, p, k, a)
  }

  /** The part of `findnext` before the loop: whether the loop runs, the
      state it starts from and the key buffer. */
  function Begun(entries: seq<SlotEntry>, key: BufferState, s: SearchState): (r: (bool, SearchState, BufferState))
    requires WellFormed(key) && |entries| == BUCKETS
    ensures WellFormed(r.2)
  {
    if s.loop == 0 then
      var u := Hash(key.content[key.position..key.limit]);
      var e := entries[Bucket(u)];
      if e.length == 0 then (false, s.(hslots := 0), Cleared(key))
      else (true, SearchState(0, u, e.length, e.position, e.position + 8 * JavaRem(u / 256, e.length)), Cleared(key))
    else (true, s, key)
  }

  class Cdb {
    /** The `FileChannel` of the open file. */
    const channel: Channel
    /** The 256 header entries, or `null`. */
    var slotTable: array?<SlotEntry>
    var loop: Int32
    var khash: int
    var hslots: Int32
    var hpos: int
    var kpos: int

    ghost predicate Valid()
      reads this
    {
      slotTable != null ==> slotTable.Length == BUCKETS
    }

    /** The search state. */
    function State(): SearchState
      reads this
    {
      SearchState(loop, khash, hslots, hpos, kpos)
    }

    /** The decoded header, if there is one. */
    function Header(): (r: Option<seq<SlotEntry>>)
      requires Valid()
      reads this, slotTable
      ensures r.Some? ==> |r.value| == BUCKETS
    {
      if slotTable == null then None else Some(slotTable[..])
    }

    /** `new Cdb(file)`: a file longer than 2048 bytes has its header read
        with one channel read into a 2048-byte buffer (which gets all of
        it, so the "Unable to read slot table" exception cannot happen) and
        decoded by 256 `new SlotEntry(buffer)`; a shorter file leaves
        `slotTable` `null`. */
    constructor (input: seq<Byte>)
      ensures Valid() && fresh(channel) && channel.input == input && Header() == SlotEntries(input)
      ensures channel.at == if |input| > HEADER_SIZE then HEADER_SIZE else 0
      ensures State() == SearchState(0, 0, 0, 0, 0)
    {
      var c := new Channel(input);
      channel := c;
      loop, khash, hslots, hpos, kpos := 0, 0, 0, 0, 0;
      if |input| > HEADER_SIZE {
        var table := Cdb.ReadHeader(c);
        slotTable := table;
      } else {
        slotTable := null;
      }
    }

    /** The header read and decoded, for a file longer than 2048 bytes. */
    static method ReadHeader(c: Channel) returns (table: array<SlotEntry>)
      requires c.at == 0 && |c.input| > HEADER_SIZE
      modifies c`at
      ensures fresh(table) && table.Length == BUCKETS && table[..] == EntriesOf(c.input, BUCKETS)
      ensures c.at == HEADER_SIZE
    {
      var buffer := new ByteBuffer.Allocate(HEADER_SIZE);
      var read := c.Read(buffer);
      assert read == HEADER_SIZE;
      buffer.Flip();
      assert buffer.content == c.input[..HEADER_SIZE];
      table := ReadEntries(buffer, c.input);
    }

    /** The loop over the header buffer: one `SlotEntry` per bucket. */
    static method ReadEntries(buffer: ByteBuffer, ghost input: seq<Byte>) returns (table: array<SlotEntry>)
      requires buffer.Valid() && HEADER_SIZE < |input| && buffer.content == input[..HEADER_SIZE]
      requires buffer.position == 0 && buffer.limit == HEADER_SIZE
      modifies buffer`position
      ensures fresh(table) && table.Length == BUCKETS && table[..] == EntriesOf(input, BUCKETS)
    {
      table := new SlotEntry[BUCKETS];
      for i := 0 to BUCKETS
        invariant buffer.Valid() && buffer.content == input[..HEADER_SIZE] && buffer.position == 8 * i && buffer.limit == HEADER_SIZE
        invariant table[..i] == EntriesOf(input, i)
      {
        var entry := ReadEntry(buffer, input, i);
        table[i] := entry;
        assert table[..i + 1] == table[..i] + [entry];
      }
      assert table[..] == table[..BUCKETS];
    }

    /** `new SlotEntry(buffer)`: two `getInt`s from the header buffer. */
    static method ReadEntry(buffer: ByteBuffer, ghost input: seq<Byte>, ghost i: nat) returns (entry: SlotEntry)
      requires buffer.Valid() && HEADER_SIZE < |input| && buffer.content == input[..HEADER_SIZE]
      requires i < BUCKETS && buffer.position == 8 * i && buffer.limit == HEADER_SIZE
      modifies buffer`position
      ensures buffer.Valid() && buffer.position == 8 * i + 8
      ensures entry == SlotEntry(Wrap32(ReadLe(input, 8 * i)), Wrap32(ReadLe(input, 8 * i + 4)))
    {
      ReadLeSlice(buffer.content, input, 8 * i, 8 * i);
      ReadLeSlice(buffer.content, input, 8 * i + 4, 8 * i + 4);
      var ok, position := buffer.GetInt();
      var ok', length := buffer.GetInt();
      entry := SlotEntry(position, length);
    }

    /** `findstart`: the next `findnext` starts a new search. */
    method FindStart()
      modifies this`loop
      ensures loop == 0
    {
      loop := 0;
    }

    /** `find`: `findstart`, then `findnext`. */
    method Find(key: ByteBuffer) returns (r: Found)
      requires Valid() && key.Valid()
      modifies this`loop, this`khash, this`hslots, this`hpos, this`kpos, key`position, key`limit, channel`at
      ensures key.Valid()
      ensures (r, State(), key.State(), channel.at) == SearchedAsWritten(channel.input, Header(), old(key.State()), old(State()).(loop := 0), old(channel.at))
    {
      FindStart();
      r := FindNext(key);
    }

    /** `findnext`: the next data stored under the key, as written. */
    method FindNext(key: ByteBuffer) returns (r: Found)
      requires Valid() && key.Valid()
      modifies this`loop, this`khash, this`hslots, this`hpos, this`kpos, key`position, key`limit, channel`at
      ensures key.Valid()
      ensures (r, State(), key.State(), channel.at) == SearchedAsWritten(channel.input, Header(), old(key.State()), old(State()), old(channel.at))
    {
      if slotTable == null {
        return Miss;
      }
      var go := Begin(key);
      if !go {
        return Miss;
      }
      var local := new ByteBuffer.Allocate(8);
      r := WalkSlots(key, local);
    }

    /** The start of `findnext` once there is a header: on the first call of
        a search, hash the key, clear it and locate the key's slot. */
    method Begin(key: ByteBuffer) returns (go: bool)
      requires Valid() && slotTable != null && key.Valid()
      modifies this`khash, this`hslots, this`hpos, this`kpos, key`position, key`limit
      ensures key.Valid()
      ensures (go, State(), key.State()) == Begun(slotTable[..], old(key.State()), old(State()))
    {
      go := true;
      if loop == 0 {
        var u := HashBuffer(key);
        key.Clear();
        var slot := slotTable[Bucket(u)];
        hslots := slot.length;
        if hslots == 0 {
          return false;
        }
        hpos := slot.position;
        khash := u;
        kpos := hpos + 8 * JavaRem(u / 256, hslots);
      }
    }

    /** The `while (loop < hslots)` loop of `findnext`. */
    method WalkSlots(key: ByteBuffer, local: ByteBuffer) returns (r: Found)
      requires key.Valid() && local.Valid() && local != key
      modifies this`loop, this`kpos, local, channel`at
      ensures (r, State(), channel.at) == WalkAsWritten(channel.input, key.content[key.position..key.limit], old(State()), old(local.State()), old(channel.at))
    {
      ghost var bytes := key.content[key.position..key.limit];
      while loop < hslots
        invariant local.Valid()
        invariant WalkAsWritten(channel.input, bytes, State(), local.State(), channel.at) == WalkAsWritten(channel.input, bytes, old(State()), old(local.State()), old(channel.at))
        decreases hslots - loop
      {
        var done;
        done, r := SlotStep(key, local);
        if done {
          return;
        }
      }
      return Miss;
    }

    /** One round of the loop: the slot at `kpos`, and the record it points
        at when the hashes match. `done` is false when the loop goes on. */
    method SlotStep(key: ByteBuffer, local: ByteBuffer) returns (done: bool, r: Found)
      requires key.Valid() && local.Valid() && local != key && loop < hslots
      modifies this`loop, this`kpos, local, channel`at
      ensures local.Valid()
      ensures done ==> (r, State(), channel.at) == WalkAsWritten(channel.input, key.content[key.position..key.limit], old(State()), old(local.State()), old(channel.at))
      ensures !done ==> loop == old(loop) + 1 && WalkAsWritten(channel.input, key.content[key.position..key.limit], State(), local.State(), channel.at) == WalkAsWritten(channel.input, key.content[key.position..key.limit], old(State()), old(local.State()), old(channel.at))
    {
      ghost var before := State();
      done := true;
      var ok := channel.Position(kpos);
      if !ok {
        return true, Thrown;
      }
      var h, pos;
      ok, h, pos := ReadSlot(local);
      if !ok {
        return true, Thrown;
      }
      if pos == 0 {
        return true, Miss;
      }
      loop := loop + 1;
      kpos := kpos + 8;
      if kpos == hpos + Wrap32(hslots * 8) {
        kpos := hpos;
      }
      assert State() == Advance(before);
      if h != khash {
        return false, Miss;
      }
      var c := ExamineRecord(key, pos, local);
      if c.Done? {
        return true, c.found;
      }
      return false, Miss;
    }

    /** `read(local)`, `flip()` and two `getInt()`s: the slot's hash and
        position; `ok` is false for a `BufferUnderflowException`. */
    method ReadSlot(local: ByteBuffer) returns (ok: bool, h: Int32, pos: Int32)
      requires local.Valid()
      modifies local, channel`at
      ensures local.Valid()
      ensures ok <==> HasInt(Flipped(Filled(channel.input, old(channel.at), old(local.State())))) && HasInt(PastInt(Flipped(Filled(channel.input, old(channel.at), old(local.State())))))
      ensures channel.at == old(channel.at) + Got(channel.input, old(channel.at), old(local.State()))
      ensures ok ==> h == IntOf(Flipped(Filled(channel.input, old(channel.at), old(local.State()))))
      ensures ok ==> pos == IntOf(PastInt(Flipped(Filled(channel.input, old(channel.at), old(local.State())))))
      ensures ok ==> local.State() == PastInt(PastInt(Flipped(Filled(channel.input, old(channel.at), old(local.State())))))
    {
      var count := channel.Read(local);
      local.Flip();
      pos := 0;
      ok, h := local.GetInt();
      if !ok {
        return;
      }
      ok, pos := local.GetInt();
    }

    /** The body of the loop once the slot's hash matches `khash`. */
    method ExamineRecord(key: ByteBuffer, pos: Int32, local: ByteBuffer) returns (c: Checked)
      requires key.Valid() && local.Valid() && local != key
      modifies local, channel`at
      ensures local.Valid()
      ensures (c, channel.at) == RecordChecked(channel.input, key.content[key.position..key.limit], pos, old(local.State()), old(channel.at))
      ensures c.Passed? ==> local.State() == c.local
    {
      ghost var bytes := key.content[key.position..key.limit];
      var ok := channel.Position(pos);
      if !ok {
        return Done(Thrown);
      }
      var klen;
      ok, klen := ReadKeyLength(local);
      if !ok {
        return Done(Thrown);
      }
      if klen != key.limit - key.position {
        return Passed(local.State());
      }
      var dlen;
      ok, dlen := local.GetInt();
      if !ok {
        return Done(Thrown);
      }
      c := ReadKeyAndData(key, dlen, local);
    }

    /** `clear()`, `read(local)`, `flip()` and `getInt()`: the record's key
        length; `ok` is false for a `BufferUnderflowException`. */
    method ReadKeyLength(local: ByteBuffer) returns (ok: bool, klen: Int32)
      requires local.Valid()
      modifies local, channel`at
      ensures local.Valid()
      ensures ok <==> HasInt(Flipped(Filled(channel.input, old(channel.at), Cleared(old(local.State())))))
      ensures channel.at == old(channel.at) + Got(channel.input, old(channel.at), Cleared(old(local.State())))
      ensures ok ==> klen == IntOf(Flipped(Filled(channel.input, old(channel.at), Cleared(old(local.State())))))
      ensures ok ==> local.State() == PastInt(Flipped(Filled(channel.input, old(channel.at), Cleared(old(local.State())))))
    {
      local.Clear();
      var count := channel.Read(local);
      local.Flip();
      ok, klen := local.GetInt();
    }

    /** The stored key compared with the key, then the data. */
    method ReadKeyAndData(key: ByteBuffer, dlen: Int32, local: ByteBuffer) returns (c: Checked)
      requires key.Valid()
      modifies channel`at
      ensures (c, channel.at) == KeyAndData(channel.input, key.content[key.position..key.limit], dlen, local.State(), old(channel.at))
    {
      var k := ReadNew(key.limit - key.position);
      if k != key.content[key.position..key.limit] {
        return Passed(local.State());
      }
      if dlen < 0 {
        return Done(Thrown);
      }
      var d := ReadNew(dlen);
      return Done(Hit(d));
    }

    /** `ByteBuffer.allocate(n)`, one `read` into it and `flip()`: the
        bytes read. */
    method ReadNew(n: nat) returns (bytes: seq<Byte>)
      modifies channel`at
      ensures bytes == Fetched(channel.input, old(channel.at), n)
      ensures channel.at == old(channel.at) + |bytes|
    {
      var buffer := new ByteBuffer.Allocate(n);
      var count := channel.Read(buffer);
      buffer.Flip();
      bytes := buffer.content[buffer.position..buffer.limit];
    }

    /** `Cdb.elements(input)`: one read into a 4-byte buffer, `getInt()`
        for `eod` (`null` here stands for the `BufferUnderflowException`
        when fewer than 4 bytes were read), then the channel skips the
        other 2044 header bytes and the enumeration starts. */
    static method Elements(input: Channel) returns (r: CdbElementEnumeration?)
      modifies input`at
      ensures r == null <==> LengthsGot4(input.input, old(input.at)) < 4
      ensures r != null ==> fresh(r) && r.Valid() && r.channel == input && r.pos == HEADER_SIZE
      ensures r != null ==> r.eod == Wrap32(ReadLe(input.input, old(input.at))) && input.at == old(input.at) + HEADER_SIZE
    {
      var eodBuffer := new ByteBuffer.Allocate(4);
      ghost var start := input.at;
      var read := input.Read(eodBuffer);
      eodBuffer.Flip();
      var ok, eod := eodBuffer.GetInt();
      if !ok {
        return null;
      }
      ReadLeSlice(eodBuffer.content, input.input, 0, start);
      var skipped := HEADER_SIZE - 4;
      ok := input.Position(input.at + skipped);
      r := new CdbElementEnumeration(input, eod);
    }
  }

  /** How many bytes a read at `at` puts into a new 4-byte buffer. */
  function LengthsGot4(input: seq<Byte>, at: nat): (n: nat)
    ensures n <= 4 && n == Got(input, at, Allocated(4))
  {
    if at >= |input| then 0 else if 4 <= |input| - at then 4 else |input| - at
  }
}
