/** What the library reader's two departures from the reference reader lead
    to, and the reader as evidently intended.

    - `local` is cleared before a record is read but not before a slot is:
      once a slot's two `int`s are taken, the buffer has no room left, the
      next slot's read gets nothing, and the flip hands the same two `int`s
      back. A slot with another key's hash is thus seen again and again, and
      no later slot of that call is looked at.
    - the slot's `int` hash is compared with the `long` key hash, which lies
      in `[0, 2^32)`: a key whose hash has bit 31 set never matches.

    `WalkCorrected` reads each slot into a cleared buffer and compares with
    `(int) khash`; on every file the builder makes it returns what the
    reference reader returns. */
module LibraryFindings {
  import opened Bytes
  import opened CdbHash
  import opened CdbFormat
  import opened ProbeTable
  import opened CdbLayout
  import opened Buffers
  import opened CdbReader
  import opened LookupCorrect
  import opened LibraryReader
  import opened Seqs

  /** An 8-byte read at `q` into a new or cleared 8-byte buffer, flipped:
      both `int`s of the slot at `q`. */
  lemma SlotBuffer(file: seq<Byte>, q: int, local: BufferState)
    requires 0 <= q && q + 8 <= |file| && local.position == 0 && local.limit == |local.content| == 8
    ensures Got(file, q, local) == 8
    ensures HasInt(Flipped(Filled(file, q, local))) && HasInt(PastInt(Flipped(Filled(file, q, local))))
    ensures IntOf(Flipped(Filled(file, q, local))) == Wrap32(ReadLe(file, q))
    ensures IntOf(PastInt(Flipped(Filled(file, q, local)))) == Wrap32(ReadLe(file, q + 4))
    ensures PastInt(PastInt(Flipped(Filled(file, q, local)))) == BufferState(file[q..q + 8], 8, 8)
  {
    var c := Filled(file, q, local).content;
    assert c == file[q..q + 8];
    ReadLeSlice(c, file, 0, q);
    ReadLeSlice(c, file, 4, q + 4);
  }

  /** The 8 bytes of a slot, holding the slot's two `int`s. */
  lemma SlotCopy(file: seq<Byte>, q: int) returns (slot: seq<Byte>)
    requires 0 <= q && q + 8 <= |file|
    ensures slot == file[q..q + 8] && |slot| == 8
    ensures ReadLe(slot, 0) == ReadLe(file, q) && ReadLe(slot, 4) == ReadLe(file, q + 4)
  {
    slot := file[q..q + 8];
    ReadLeSlice(slot, file, 0, q);
    ReadLeSlice(slot, file, 4, q + 4);
  }

  /** Stale buffer, in any file: with `local` full of a slot whose hash is
      not `khash` and whose position is not 0, every later read gets
      nothing and the same slot comes back, until `loop` reaches `hslots`:
      the call returns `null`. */
  lemma {:induction false} StaleSlotRepeats(file: seq<Byte>, key: seq<Byte>, s: SearchState, slot: seq<Byte>, at: nat)
    requires |slot| == 8 && Wrap32(ReadLe(slot, 0)) != s.khash && Wrap32(ReadLe(slot, 4)) != 0
    requires 0 <= s.hpos && 0 <= s.kpos
    ensures WalkAsWritten(file, key, s, BufferState(slot, 8, 8), at).0 == Miss
    decreases s.hslots - s.loop
  {
    if s.loop < s.hslots {
      var l := BufferState(slot, 8, 8);
      assert Filled(file, s.kpos, l) == l;
      assert PastInt(PastInt(Flipped(l))) == l;
      StaleSlotRepeats(file, key, Advance(s), slot, s.kpos);
    }
  }

  /** Stale buffer: when the first slot a call reads holds another hash
      and a position other than 0, the call returns `null`, whatever the
      later slots hold. */
  lemma ForeignFirstSlot(file: seq<Byte>, key: seq<Byte>, s: SearchState, at: nat)
    requires s.loop < s.hslots && 0 <= s.hpos && 0 <= s.kpos && s.kpos + 8 <= |file|
    requires Wrap32(ReadLe(file, s.kpos)) != s.khash && Wrap32(ReadLe(file, s.kpos + 4)) != 0
    ensures WalkAsWritten(file, key, s, Allocated(8), at).0 == Miss
  {
    SlotBuffer(file, s.kpos, Allocated(8));
    var slot := SlotCopy(file, s.kpos);
    StaleSlotRepeats(file, key, Advance(s), slot, s.kpos + 8);
  }

  /** `int` against `long`, in any file: when `khash` is at least 2^31 no
      slot's `int` hash equals it, so the walk never returns data. */
  lemma {:induction false} HighHashWalk(file: seq<Byte>, key: seq<Byte>, s: SearchState, local: BufferState, at: nat)
    requires WellFormed(local) && s.khash > INT_MAX
    ensures !WalkAsWritten(file, key, s, local, at).0.Hit?
    decreases s.hslots - s.loop
  {
    if s.loop < s.hslots && s.kpos >= 0 {
      var l := Flipped(Filled(file, s.kpos, local));
      var a := s.kpos + Got(file, s.kpos, local);
      if HasInt(l) && HasInt(PastInt(l)) && IntOf(PastInt(l)) != 0 {
        HighHashWalk(file, key, Advance(s), PastInt(PastInt(l)), a);
      }
    }
  }

  /** `int` against `long`: a key whose hash has bit 31 set is never found,
      in any file, on the first call of a search or any later one. */
  lemma HighHashNeverFound(file: seq<Byte>, entries: Option<seq<SlotEntry>>, key: BufferState, s: SearchState, at: nat)
    requires WellFormed(key) && (entries.Some? ==> |entries.value| == BUCKETS)
    requires Hash(key.content[key.position..key.limit]) > INT_MAX
    requires s.loop != 0 ==> s.khash == Hash(key.content[key.position..key.limit])
    ensures !SearchedAsWritten(file, entries, key, s, at).0.Hit?
  {
    if entries.Some? {
      var (go, s', k) := Begun(entries.value, key, s);
      if go {
        HighHashWalk(file, k.content[k.position..k.limit], s', Allocated(8), at);
      }
    }
  }

  /** The walk as intended: every slot is read into a cleared buffer and
      its hash compared with `(int) khash`. */
  function WalkCorrected(file: seq<Byte>, key: seq<Byte>, s: SearchState, at: nat): (r: (Found, SearchState, nat))
    decreases s.hslots - s.loop
  {
    if s.loop >= s.hslots then (Miss, s, at)
    else if s.kpos < 0 then (Thrown, s, at)
    else
      var l := Flipped(Filled(file, s.kpos, Allocated(8)));
      var a := s.kpos + Got(file, s.kpos, Allocated(8));
      if !HasInt(l) || !HasInt(PastInt(l)) then (Thrown, s, a)
      else if IntOf(PastInt(l)) == 0 then (Miss, s, a)
      else if IntOf(l) != Wrap32(s.khash) then WalkCorrected(file, key, Advance(s), a)
      else
        var (c, a') := RecordChecked(file, key, IntOf(PastInt(l)), Allocated(8), a);
        match c
        case Passed(_) => WalkCorrected(file, key, Advance(s), a')
        case Done(f) => (f, Advance(s), a')
  }

  /** `findnext` as intended: as written, with the corrected walk. */
  function SearchedCorrected(file: seq<Byte>, entries: Option<seq<SlotEntry>>, key: BufferState, s: SearchState, at: nat): (r: (Found, SearchState, BufferState, nat))
    requires WellFormed(key) && (entries.Some? ==> |entries.value| == BUCKETS)
  {
    if entries.None? then (Miss, s, key, at)
    else
      var (go, s', k) := Begun(entries.value, key, s);
      if !go then (Miss, s', k, at)
      else
        var (f, p, a) := WalkCorrected(file, k.content[k.position..k.limit], s', at);
        (f, p, k, a)
  }

  /** The reference reader's view of a library search state whose `long`s
      fit in an `int`. */
  function AsSearch(s: SearchState): (r: Search)
  {
    Search(s.loop, Wrap32(s.khash), s.hslots, Wrap32(s.hpos), Wrap32(s.kpos))
  }

  /** The positions of `s` are `int`s, so the `long` arithmetic agrees with
      the reference reader's `int` arithmetic. */
  predicate Narrow(s: SearchState)
  {
    -0x8000_0000 <= s.hpos <= INT_MAX && -0x8000_0000 <= s.kpos <= INT_MAX
  }

  /** On the key's chain, one more slot examined is the same step in both
      readers. */
  lemma AdvanceAgrees(rs: seq<Element>, key: seq<Byte>, s: SearchState)
    requires Fits(rs) && Narrow(s) && OnChain(rs, key, AsSearch(s)) && s.loop < s.hslots
    ensures Narrow(Advance(s)) && AsSearch(Advance(s)) == Advanced(AsSearch(s))
    ensures OnChain(rs, key, AsSearch(Advance(s)))
  {
    ChainWithin(rs, Bucket(Hash(key)));
    AdvancedOnChain(rs, key, AsSearch(s));
  }

  /** A read into a new buffer as long as bytes stored at `at` gets them. */
  lemma FetchedStored(file: seq<Byte>, at: nat, v: seq<Byte>)
    requires at + |v| <= |file| && file[at..at + |v|] == v
    ensures Fetched(file, at, |v|) == v
  {
  }

  /** A stored key as long as `key` and its data, once both lengths are
      taken: the data when the key is `key`, and otherwise the walk goes on. */
  lemma KeyAndDataStored(file: seq<Byte>, key: seq<Byte>, local: BufferState, at: nat, e: Element)
    requires |e.key| == |key| && at + |e.key| + |e.data| <= |file| && |e.data| <= INT_MAX
    requires file[at..at + |e.key|] == e.key && file[at + |e.key|..at + |e.key| + |e.data|] == e.data
    ensures e.key == key ==> KeyAndData(file, key, |e.data|, local, at).0 == Done(Hit(e.data))
    ensures e.key != key ==> KeyAndData(file, key, |e.data|, local, at).0.Passed?
  {
    FetchedStored(file, at, e.key);
    if e.key == key {
      FetchedStored(file, at + |key|, e.data);
    }
  }

  /** A stored record examined by the library with any 8-byte buffer
      `local`, which the read clears first: its data when its key is the
      key, and otherwise the walk goes on. */
  lemma RecordCheckedStored(file: seq<Byte>, key: seq<Byte>, pos: Int32, e: Element, local: BufferState, at: nat)
    requires RecordHolds(file, pos, e) && 0 < pos && pos + 8 + |e.key| + |e.data| <= INT_MAX
    requires WellFormed(local) && |local.content| == 8
    ensures e.key == key ==> RecordChecked(file, key, pos, local, at).0 == Done(Hit(e.data))
    ensures e.key != key ==> RecordChecked(file, key, pos, local, at).0.Passed?
  {
    RecordRead(file, pos, e);
    SlotBuffer(file, pos, Cleared(local));
    if |e.key| == |key| {
      var at := StoredParts(file, pos, e);
      KeyAndDataStored(file, key, BufferState(file[pos..pos + 8], 8, 8), at, e);
    }
  }

  /** The key and the data of a stored record, after its 8 length bytes. */
  lemma StoredParts(file: seq<Byte>, pos: int, e: Element) returns (at: nat)
    requires RecordHolds(file, pos, e)
    ensures at == pos + 8 && at + |e.key| + |e.data| <= |file|
    ensures file[at..at + |e.key|] == e.key && file[at + |e.key|..at + |e.key| + |e.data|] == e.data
  {
    RecordRead(file, pos, e);
    at := pos + 8;
  }

  /** In any file, the corrected walk at a slot within the file: a free
      slot ends it, another hash goes on to the next slot, and the key's
      hash has the record examined. */
  lemma CorrectedRead(file: seq<Byte>, key: seq<Byte>, s: SearchState, at: nat)
    requires s.loop < s.hslots && 0 <= s.kpos && s.kpos + 8 <= |file|
    ensures Wrap32(ReadLe(file, s.kpos + 4)) == 0 ==> WalkCorrected(file, key, s, at) == (Miss, s, s.kpos + 8)
    ensures Wrap32(ReadLe(file, s.kpos + 4)) != 0 && Wrap32(ReadLe(file, s.kpos)) != Wrap32(s.khash) ==>
      WalkCorrected(file, key, s, at) == WalkCorrected(file, key, Advance(s), s.kpos + 8)
    ensures Wrap32(ReadLe(file, s.kpos + 4)) != 0 && Wrap32(ReadLe(file, s.kpos)) == Wrap32(s.khash) ==>
      var (c, a) := RecordChecked(file, key, Wrap32(ReadLe(file, s.kpos + 4)), Allocated(8), s.kpos + 8);
      WalkCorrected(file, key, s, at) == if c.Passed? then WalkCorrected(file, key, Advance(s), a) else (c.found, Advance(s), a)
  {
    SlotBuffer(file, s.kpos, Allocated(8));
  }

  /** In any file, a free slot ends the corrected walk where it is. */
  lemma CorrectedFree(file: seq<Byte>, key: seq<Byte>, s: SearchState, at: nat)
    requires s.loop < s.hslots && 0 <= s.kpos && SlotHolds(file, s.kpos, None)
    ensures WalkCorrected(file, key, s, at) == (Miss, s, s.kpos + 8)
  {
    assert s.kpos + 8 <= |file| && Wrap32(ReadLe(file, s.kpos + 4)) == 0;
    CorrectedRead(file, key, s, at);
  }

  /** In any file, a taken slot whose pointer carries the hash of the key of
      the record it points at: the corrected walk returns that record's
      data when its key is `key`, and otherwise goes on at the next slot
      (from channel position `a`). */
  lemma CorrectedTaken(file: seq<Byte>, key: seq<Byte>, s: SearchState, p: HashPointer, e: Element, at: nat) returns (a: nat)
    requires s.loop < s.hslots && 0 <= s.kpos && SlotHolds(file, s.kpos, Some(p)) && RecordHolds(file, p.pos, e)
    requires p.hash == Hash(e.key) && Wrap32(s.khash) == Wrap32(Hash(key))
    requires 0 < p.pos && p.pos + 8 + |e.key| + |e.data| <= INT_MAX
    ensures WalkCorrected(file, key, s, at) == if e.key == key then (Hit(e.data), Advance(s), a) else WalkCorrected(file, key, Advance(s), a)
  {
    CorrectedRead(file, key, s, at);
    if Wrap32(p.hash) != Wrap32(s.khash) {
      a := s.kpos + 8;
    } else {
      RecordCheckedStored(file, key, p.pos, e, Allocated(8), s.kpos + 8);
      a := RecordChecked(file, key, p.pos, Allocated(8), s.kpos + 8).1;
    }
  }

  /** One slot of the key's chain in the file of `rs`: either both walks
      end there alike, or both go on to the next slot. */
  lemma CorrectedStep(rs: seq<Element>, key: seq<Byte>, s: SearchState, at: nat) returns (stop: bool, a: nat)
    requires Fits(rs) && Narrow(s) && OnChain(rs, key, AsSearch(s)) && s.loop < s.hslots
    ensures stop ==> WalkCorrected(Image(rs), key, s, at).0 == Walk(Image(rs), key, AsSearch(s)).0
    ensures stop ==> Narrow(WalkCorrected(Image(rs), key, s, at).1) && AsSearch(WalkCorrected(Image(rs), key, s, at).1) == Walk(Image(rs), key, AsSearch(s)).1
    ensures !stop ==> WalkCorrected(Image(rs), key, s, at) == WalkCorrected(Image(rs), key, Advance(s), a)
    ensures !stop ==> Walk(Image(rs), key, AsSearch(s)) == Walk(Image(rs), key, Advanced(AsSearch(s)))
  {
    var t := AsSearch(s);
    var b := Bucket(Hash(key));
    var j := Step(Home(Hash(key), t.hslots), t.loop, t.hslots);
    ChainWithin(rs, b);
    SlotOfImage(rs, b, j, t.kpos);
    AdvanceAgrees(rs, key, s);
    if ChainSlot(rs, key, t).None? {
      WalkAtFree(rs, key, t);
      CorrectedFree(Image(rs), key, s, at);
      stop, a := true, at;
    } else {
      var i := WalkAtTaken(rs, key, t);
      RecordInImage(rs, i);
      ImageSize(rs);
      a := CorrectedTaken(Image(rs), key, s, ChainSlot(rs, key, t).value, rs[i], at);
      stop := rs[i].key == key;
    }
  }

  /** The corrected walk from a state on the key's chain, in the file of
      `rs`: what the reference walk returns, ending in the same state. */
  lemma {:induction false} WalkCorrectedAgrees(rs: seq<Element>, key: seq<Byte>, s: SearchState, at: nat)
    requires Fits(rs) && Narrow(s) && OnChain(rs, key, AsSearch(s))
    ensures WalkCorrected(Image(rs), key, s, at).0 == Walk(Image(rs), key, AsSearch(s)).0
    ensures Narrow(WalkCorrected(Image(rs), key, s, at).1)
    ensures AsSearch(WalkCorrected(Image(rs), key, s, at).1) == Walk(Image(rs), key, AsSearch(s)).1
    decreases s.hslots - s.loop
  {
    if s.loop >= s.hslots {
      WalkStops(Image(rs), key, AsSearch(s));
    } else {
      var stop, a := CorrectedStep(rs, key, s, at);
      if !stop {
        AdvanceAgrees(rs, key, s);
        WalkCorrectedAgrees(rs, key, Advance(s), a);
      }
    }
  }

  /** The state the first call of a search starts its walk from, when
      the header entry of the key's bucket holds the two header `int`s of
      that bucket and names a table within the largest `int` position: the
      reference reader's home slot. */
  lemma StartFrom(entries: seq<SlotEntry>, table: seq<Int32>, key: seq<Byte>, s: SearchState)
    requires |entries| == BUCKETS && |table| == 2 * BUCKETS && s.loop == 0
    requires entries[Bucket(Hash(key))] == SlotEntry(table[2 * Bucket(Hash(key))], table[2 * Bucket(Hash(key)) + 1])
    requires 0 < table[2 * Bucket(Hash(key)) + 1] && 0 <= table[2 * Bucket(Hash(key))]
    requires table[2 * Bucket(Hash(key))] + 8 * table[2 * Bucket(Hash(key)) + 1] <= INT_MAX
    ensures table[2 * Bucket(Wrap32(Hash(key))) + 1] != 0
    ensures Begun(entries, BufferState(key, 0, |key|), s).0
    ensures Narrow(Begun(entries, BufferState(key, 0, |key|), s).1)
    ensures AsSearch(Begun(entries, BufferState(key, 0, |key|), s).1) == Located(table, key)
  {
    var h := Hash(key);
    var b := Bucket(h);
    var hpos, len := table[2 * b], table[2 * b + 1];
    BucketOfWrap(h);
    LocatedAt(table, key, hpos, len);
    BegunFrom(entries, key, s, hpos, len);
  }

  /** The first call of a search starts at the home slot of the key's bucket. */
  lemma BegunFrom(entries: seq<SlotEntry>, key: seq<Byte>, s: SearchState, hpos: Int32, len: Int32)
    requires |entries| == BUCKETS && s.loop == 0 && 0 < len
    requires entries[Bucket(Hash(key))] == SlotEntry(hpos, len)
    ensures Begun(entries, BufferState(key, 0, |key|), s)
      == (true, SearchState(0, Hash(key), len, hpos, hpos + 8 * Home(Hash(key), len)), BufferState(key, 0, |key|))
  {
    WholeSlice(key);
    HomeOfLong(Hash(key), len);
  }

  /** The library reader's `(int) ((h >>> 8) % hslots)` on the unsigned
      hash is the home slot. */
  lemma HomeOfLong(u: int, len: int)
    requires 0 <= u < 0x1_0000_0000 && 0 < len
    ensures JavaRem(u / 256, len) == Home(u, len)
  {
    UnsignedOfU32(u);
  }

  /** On a file the builder made with a table for the key's bucket, the
      first call of a search starts at the reference reader's home slot,
      on the key's chain. */
  lemma StartAgrees(rs: seq<Element>, key: seq<Byte>, s: SearchState) returns (entries: seq<SlotEntry>, table: seq<Int32>, started: SearchState)
    requires Fits(rs) && Count(Pointers(rs), Bucket(Hash(key))) > 0 && s.loop == 0
    ensures SlotEntries(Image(rs)) == Some(entries) && |entries| == BUCKETS && entries[Bucket(Hash(key))].length != 0
    ensures SlotTable(Image(rs)) == Some(table) && |table| == 2 * BUCKETS && table[2 * Bucket(Wrap32(Hash(key))) + 1] != 0
    ensures Begun(entries, BufferState(key, 0, |key|), s).0 && Begun(entries, BufferState(key, 0, |key|), s).1 == started
    ensures Narrow(started) && AsSearch(started) == Located(table, key) && OnChain(rs, key, AsSearch(started))
  {
    var b := Bucket(Hash(key));
    var file := Image(rs);
    ImageSize(rs);
    EntriesAgree(file, b);
    HeaderOfImage(rs, b);
    ChainWithin(rs, b);
    entries, table := SlotEntries(file).value, SlotTable(file).value;
    assert entries[b] == SlotEntry(table[2 * b], table[2 * b + 1]);
    assert 0 < table[2 * b + 1] && 0 <= table[2 * b];
    assert table[2 * b] + 8 * table[2 * b + 1] <= INT_MAX;
    assert |entries| == BUCKETS;
    assert |table| == 2 * BUCKETS;
    assert s.loop == 0;
    StartFrom(entries, table, key, s);
    var located := LocatedOnChain(rs, key);
    started := Begun(entries, BufferState(key, 0, |key|), s).1;
  }

  /** In any file, the first call of a reference search: `null` without a
      table for the key's bucket, and otherwise the walk from its home slot. */
  lemma SearchedFirst(file: seq<Byte>, table: seq<Int32>, key: seq<Byte>, t: Search)
    requires |table| == 2 * BUCKETS && t.loop == 0
    ensures table[2 * Bucket(Wrap32(Hash(key))) + 1] == 0 ==> Searched(file, Some(table), key, t).0 == Miss
    ensures table[2 * Bucket(Wrap32(Hash(key))) + 1] != 0 ==> Searched(file, Some(table), key, t) == Walk(file, key, Located(table, key))
  {
  }

  /** In any file, the first call of a corrected search for the bytes of a
      new key buffer: `null` when the key's header entry has no slots, and
      otherwise the corrected walk from where `Begun` starts it. */
  lemma CorrectedFirst(file: seq<Byte>, entries: seq<SlotEntry>, key: seq<Byte>, s: SearchState, at: nat)
    requires |entries| == BUCKETS && s.loop == 0
    ensures entries[Bucket(Hash(key))].length == 0 ==> SearchedCorrected(file, Some(entries), BufferState(key, 0, |key|), s, at).0 == Miss
    ensures entries[Bucket(Hash(key))].length != 0 ==>
      SearchedCorrected(file, Some(entries), BufferState(key, 0, |key|), s, at).0 == WalkCorrected(file, key, Begun(entries, BufferState(key, 0, |key|), s).1, at).0 &&
      SearchedCorrected(file, Some(entries), BufferState(key, 0, |key|), s, at).1 == WalkCorrected(file, key, Begun(entries, BufferState(key, 0, |key|), s).1, at).1
  {
    assert key[0..|key|] == key;
  }

  /** On a file the builder made without a table for the key's bucket,
      the first call of a search returns `null` in both readers. */
  lemma NoTableCorrected(rs: seq<Element>, key: seq<Byte>, s: SearchState, at: nat)
    requires Fits(rs) && Count(Pointers(rs), Bucket(Hash(key))) == 0 && s.loop == 0
    ensures SearchedCorrected(Image(rs), SlotEntries(Image(rs)), BufferState(key, 0, |key|), s, at).0 == Miss
    ensures FindNextOn(rs, key, AsSearch(s)).0 == Miss
  {
    NoTableInImage(rs, key);
    EmptyBucketMisses(Image(rs), key, s, at);
  }

  /** The header of the file of `rs` gives the key's empty bucket no slots
      in both readers. */
  lemma NoTableInImage(rs: seq<Element>, key: seq<Byte>)
    requires Fits(rs) && Count(Pointers(rs), Bucket(Hash(key))) == 0
    ensures SlotTable(Image(rs)).Some? && SlotTable(Image(rs)).value[2 * Bucket(Hash(key)) + 1] == 0
    ensures Bucket(Wrap32(Hash(key))) == Bucket(Hash(key))
    ensures SlotEntries(Image(rs)).Some? ==> SlotEntries(Image(rs)).value[Bucket(Hash(key))] == SlotEntry(SlotTable(Image(rs)).value[2 * Bucket(Hash(key))], SlotTable(Image(rs)).value[2 * Bucket(Hash(key)) + 1])
  {
    EntriesAgree(Image(rs), Bucket(Hash(key)));
    LocatedNowhere(rs, key);
    BucketOfWrap(Hash(key));
  }

  /** In any file whose header gives the key's bucket no slots, the first
      call of either search returns `null`. */
  lemma EmptyBucketMisses(file: seq<Byte>, key: seq<Byte>, s: SearchState, at: nat)
    requires s.loop == 0 && SlotTable(file).Some? && SlotTable(file).value[2 * Bucket(Hash(key)) + 1] == 0
    requires Bucket(Wrap32(Hash(key))) == Bucket(Hash(key))
    requires SlotEntries(file).Some? ==> SlotEntries(file).value[Bucket(Hash(key))] == SlotEntry(SlotTable(file).value[2 * Bucket(Hash(key))], SlotTable(file).value[2 * Bucket(Hash(key)) + 1])
    ensures SearchedCorrected(file, SlotEntries(file), BufferState(key, 0, |key|), s, at).0 == Miss
    ensures Searched(file, SlotTable(file), key, AsSearch(s)).0 == Miss
  {
    SearchedFirst(file, SlotTable(file).value, key, AsSearch(s));
    if SlotEntries(file).Some? {
      CorrectedFirst(file, SlotEntries(file).value, key, s, at);
    }
  }

  /** On a file the builder made with a table for the key's bucket, the
      first call of a corrected search walks the chain as the reference
      reader does. */
  lemma ChainCorrected(rs: seq<Element>, key: seq<Byte>, s: SearchState, at: nat)
    requires Fits(rs) && Count(Pointers(rs), Bucket(Hash(key))) > 0 && s.loop == 0
    ensures SearchedCorrected(Image(rs), SlotEntries(Image(rs)), BufferState(key, 0, |key|), s, at).0 == FindNextOn(rs, key, AsSearch(s)).0
    ensures Narrow(SearchedCorrected(Image(rs), SlotEntries(Image(rs)), BufferState(key, 0, |key|), s, at).1)
    ensures AsSearch(SearchedCorrected(Image(rs), SlotEntries(Image(rs)), BufferState(key, 0, |key|), s, at).1) == FindNextOn(rs, key, AsSearch(s)).1
  {
    var file := Image(rs);
    var entries, table, s' := StartAgrees(rs, key, s);
    CorrectedFirst(file, entries, key, s, at);
    assert entries[Bucket(Hash(key))].length != 0;
    assert SearchedCorrected(file, Some(entries), BufferState(key, 0, |key|), s, at).1 == WalkCorrected(file, key, s', at).1;
    SearchedFirst(file, table, key, AsSearch(s));
    assert FindNextOn(rs, key, AsSearch(s)) == Walk(file, key, Located(table, key));
    WalkCorrectedAgrees(rs, key, s', at);
  }

  /** On a file the builder made, the first call of a corrected search
      returns what the reference reader's `findnext` returns. */
  lemma FirstCallCorrected(rs: seq<Element>, key: seq<Byte>, s: SearchState, at: nat)
    requires Fits(rs) && s.loop == 0
    ensures SearchedCorrected(Image(rs), SlotEntries(Image(rs)), BufferState(key, 0, |key|), s, at).0 == FindNextOn(rs, key, AsSearch(s)).0
  {
    if Count(Pointers(rs), Bucket(Hash(key))) == 0 {
      NoTableCorrected(rs, key, s, at);
    } else {
      ChainCorrected(rs, key, s, at);
    }
  }

  /** On a file the builder made, the first call of a corrected search for
      a key that was added returns data. */
  lemma CorrectedFindsAdded(rs: seq<Element>, key: seq<Byte>, data: seq<Byte>, s: SearchState, at: nat)
    requires Fits(rs) && Element(key, data) in rs && s.loop == 0
    ensures SearchedCorrected(Image(rs), SlotEntries(Image(rs)), BufferState(key, 0, |key|), s, at).0.Hit?
  {
    FirstCallCorrected(rs, key, s, at);
    FindComplete(rs, key, data, AsSearch(s));
  }

  /** On a file the builder made, the first call of a corrected search
      never throws and returns only data added under the key. */
  lemma CorrectedFindsOnlyAdded(rs: seq<Element>, key: seq<Byte>, s: SearchState, at: nat)
    requires Fits(rs) && s.loop == 0
    ensures !SearchedCorrected(Image(rs), SlotEntries(Image(rs)), BufferState(key, 0, |key|), s, at).0.Thrown?
    ensures SearchedCorrected(Image(rs), SlotEntries(Image(rs)), BufferState(key, 0, |key|), s, at).0.Hit? ==>
      Element(key, SearchedCorrected(Image(rs), SlotEntries(Image(rs)), BufferState(key, 0, |key|), s, at).0.data) in rs
  {
    FirstCallCorrected(rs, key, s, at);
    FindNextSound(rs, key, AsSearch(s));
  }

  /** On a file the builder made, the first call of a corrected search for
      a key whose every record holds the same data returns that data. */
  lemma CorrectedFindsOnlyData(rs: seq<Element>, key: seq<Byte>, data: seq<Byte>, s: SearchState, at: nat)
    requires Fits(rs) && s.loop == 0 && Element(key, data) in rs && OnlyData(rs, key, data)
    ensures SearchedCorrected(Image(rs), SlotEntries(Image(rs)), BufferState(key, 0, |key|), s, at).0 == Hit(data)
  {
    CorrectedFindsAdded(rs, key, data, s, at);
    CorrectedFindsOnlyAdded(rs, key, s, at);
  }

  /** On a file the builder made, a later call of a corrected search, from
      a state on the key's chain, walks on as the reference reader does. */
  lemma LaterCallCorrected(rs: seq<Element>, key: seq<Byte>, s: SearchState, at: nat)
    requires Fits(rs) && s.loop != 0 && Narrow(s) && OnChain(rs, key, AsSearch(s))
    ensures SearchedCorrected(Image(rs), SlotEntries(Image(rs)), BufferState(key, 0, |key|), s, at).0 == FindNextOn(rs, key, AsSearch(s)).0
    ensures Narrow(SearchedCorrected(Image(rs), SlotEntries(Image(rs)), BufferState(key, 0, |key|), s, at).1)
    ensures AsSearch(SearchedCorrected(Image(rs), SlotEntries(Image(rs)), BufferState(key, 0, |key|), s, at).1) == FindNextOn(rs, key, AsSearch(s)).1
  {
    var file := Image(rs);
    var entries, table := TablesOfImage(rs, key);
    assert key[0..|key|] == key;
    assert SearchedCorrected(file, Some(entries), BufferState(key, 0, |key|), s, at).1 == WalkCorrected(file, key, s, at).1;
    assert FindNextOn(rs, key, AsSearch(s)) == Walk(file, key, AsSearch(s));
    WalkCorrectedAgrees(rs, key, s, at);
  }

  /** The file of `rs` has a header for both readers when the key's
      bucket is not empty. */
  lemma TablesOfImage(rs: seq<Element>, key: seq<Byte>) returns (entries: seq<SlotEntry>, table: seq<Int32>)
    requires Fits(rs) && Count(Pointers(rs), Bucket(Hash(key))) > 0
    ensures SlotEntries(Image(rs)) == Some(entries) && SlotTable(Image(rs)) == Some(table)
  {
    var started;
    entries, table, started := StartAgrees(rs, key, SearchState(0, 0, 0, 0, 0));
  }

  /** A corrected search state `findnext` can be called in: the first call
      of a search, or a later one on the key's chain whose `long` positions
      fit in an `int`. */
  ghost predicate CorrectedResumable(rs: seq<Element>, key: seq<Byte>, s: SearchState)
  {
    s.loop == 0 || (Narrow(s) && OnChain(rs, key, AsSearch(s)))
  }

  /** On a file the builder made, any call of a corrected search returns
      what the reference reader's `findnext` returns and, after data, is
      left in the state the reference reader is left in. */
  lemma CallCorrected(rs: seq<Element>, key: seq<Byte>, s: SearchState, at: nat)
    requires Fits(rs) && CorrectedResumable(rs, key, s)
    ensures var r := SearchedCorrected(Image(rs), SlotEntries(Image(rs)), BufferState(key, 0, |key|), s, at);
      r.0 == FindNextOn(rs, key, AsSearch(s)).0 &&
      (r.0.Hit? ==> Narrow(r.1) && AsSearch(r.1) == FindNextOn(rs, key, AsSearch(s)).1)
  {
    if s.loop != 0 {
      LaterCallCorrected(rs, key, s, at);
    } else if Count(Pointers(rs), Bucket(Hash(key))) == 0 {
      NoTableCorrected(rs, key, s, at);
    } else {
      ChainCorrected(rs, key, s, at);
    }
  }

  /** The data the corrected `findnext(key)` returns on the file of `rs`
      in the calls from the state `s` up to the first `null`. */
  ghost function FoundAllCorrected(rs: seq<Element>, key: seq<Byte>, s: SearchState, at: nat): seq<seq<Byte>>
    requires Fits(rs) && CorrectedResumable(rs, key, s)
    decreases if s.loop == 0 then 1 else 0, s.hslots - s.loop
  {
    CallCorrected(rs, key, s, at);
    FindNextSound(rs, key, AsSearch(s));
    var (f, next, _, a) := SearchedCorrected(Image(rs), SlotEntries(Image(rs)), BufferState(key, 0, |key|), s, at);
    if f.Hit? then [f.data] + FoundAllCorrected(rs, key, next, a) else []
  }

  /** The corrected calls return the same data as the reference reader's,
      call by call. */
  lemma {:induction false} FoundAllCorrectedAgrees(rs: seq<Element>, key: seq<Byte>, s: SearchState, at: nat)
    requires Fits(rs) && CorrectedResumable(rs, key, s)
    ensures FoundAllCorrected(rs, key, s, at) == FoundAll(rs, key, AsSearch(s))
    decreases if s.loop == 0 then 1 else 0, s.hslots - s.loop
  {
    CallCorrected(rs, key, s, at);
    FindNextSound(rs, key, AsSearch(s));
    var (f, next, _, a) := SearchedCorrected(Image(rs), SlotEntries(Image(rs)), BufferState(key, 0, |key|), s, at);
    if f.Hit? {
      FoundAllCorrectedAgrees(rs, key, next, a);
    }
  }

  /** On a file the builder made, the calls of a corrected search from its
      first `findnext` up to the first `null` return the data of every
      record stored under the key, each once. */
  lemma CorrectedFindsEach(rs: seq<Element>, key: seq<Byte>, s: SearchState, at: nat)
    requires Fits(rs) && s.loop == 0
    ensures multiset(FoundAllCorrected(rs, key, s, at)) == multiset(DataUnder(rs, key))
  {
    FoundAllCorrectedAgrees(rs, key, s, at);
    FindsEach(rs, key, AsSearch(s));
  }

  /** In any file, a call whose first slot points at a record of the key,
      whose hash is below 2^31: neither departure applies, and the library
      reader as written returns the record's data. */
  lemma FirstSlotFound(file: seq<Byte>, key: seq<Byte>, s: SearchState, p: HashPointer, e: Element, at: nat)
    requires s.loop < s.hslots && 0 <= s.kpos && SlotHolds(file, s.kpos, Some(p)) && RecordHolds(file, p.pos, e)
    requires e.key == key && p.hash == Hash(key) && s.khash == Hash(key) <= INT_MAX
    requires 0 < p.pos && p.pos + 8 + |e.key| + |e.data| <= INT_MAX
    ensures WalkAsWritten(file, key, s, Allocated(8), at).0 == Hit(e.data) && WalkAsWritten(file, key, s, Allocated(8), at).1 == Advance(s)
  {
    var q := s.kpos;
    var l := Flipped(Filled(file, q, Allocated(8)));
    TakenSlotRead(file, q, p);
    RecordCheckedStored(file, key, p.pos, e, PastInt(PastInt(l)), q + 8);
    FirstSlotDone(file, key, s, e.data, at);
  }

  /** A taken slot read into a new 8-byte buffer: the pointer's hash and
      position, and the buffer then holds the slot's 8 bytes. */
  lemma TakenSlotRead(file: seq<Byte>, q: int, p: HashPointer)
    requires 0 <= q && SlotHolds(file, q, Some(p))
    ensures Got(file, q, Allocated(8)) == 8
    ensures var l := Flipped(Filled(file, q, Allocated(8)));
      HasInt(l) && HasInt(PastInt(l)) && IntOf(l) == Wrap32(p.hash) && IntOf(PastInt(l)) == Wrap32(p.pos) &&
      WellFormed(PastInt(PastInt(l))) && |PastInt(PastInt(l)).content| == 8
  {
    assert q + 8 <= |file|;
    SlotBuffer(file, q, Allocated(8));
  }

  /** The first slot of a call read into the new buffer: when its hash is
      `khash` and its record ends the call with data, so does the walk. */
  lemma FirstSlotDone(file: seq<Byte>, key: seq<Byte>, s: SearchState, d: seq<Byte>, at: nat)
    requires s.loop < s.hslots && 0 <= s.kpos
    requires var l := Flipped(Filled(file, s.kpos, Allocated(8)));
      HasInt(l) && HasInt(PastInt(l)) && IntOf(l) == s.khash && IntOf(PastInt(l)) != 0 &&
      RecordChecked(file, key, IntOf(PastInt(l)), PastInt(PastInt(l)), s.kpos + Got(file, s.kpos, Allocated(8))).0 == Done(Hit(d))
    ensures WalkAsWritten(file, key, s, Allocated(8), at).0 == Hit(d) && WalkAsWritten(file, key, s, Allocated(8), at).1 == Advance(s)
  {
  }

  /** In any file, a call that starts at a free slot returns `null`: the
      new buffer holds the slot, whose position is 0. */
  lemma FreeSlotMissed(file: seq<Byte>, key: seq<Byte>, s: SearchState, at: nat)
    requires s.loop < s.hslots && 0 <= s.kpos && SlotHolds(file, s.kpos, None)
    ensures WalkAsWritten(file, key, s, Allocated(8), at).0 == Miss
  {
    assert s.kpos + 8 <= |file|;
    SlotBuffer(file, s.kpos, Allocated(8));
  }

  /** On a file the builder made, a key added once, alone in its bucket and
      with a hash below 2^31: the first call of a search by the library
      reader as written returns its data, and the next call (from any
      channel position) reads the table's other slot, which is free, and
      returns `null`. */
  lemma LoneKeyFoundAsWritten(rs: seq<Element>, key: seq<Byte>, i: nat, s: SearchState, at: nat, at2: nat)
    requires Fits(rs) && i < |rs| && rs[i].key == key && s.loop == 0
    requires Count(Pointers(rs), Bucket(Hash(key))) == 1 && Hash(key) <= INT_MAX
    ensures var r := SearchedAsWritten(Image(rs), SlotEntries(Image(rs)), BufferState(key, 0, |key|), s, at);
      r.0 == Hit(rs[i].data) && SearchedAsWritten(Image(rs), SlotEntries(Image(rs)), r.2, r.1, at2).0 == Miss
  {
    var entries, table, started := StartAgrees(rs, key, s);
    LoneSlots(rs, key, i);
    var t := AsSearch(started);
    var w := Home(Hash(key), 2);
    assert t.hslots == 2 && t.loop == 0 && Step(w, 0, 2) == w;
    SlotOfImage(rs, Bucket(Hash(key)), w, t.kpos);
    RecordInImage(rs, i);
    RecordOfImage(rs, i);
    assert key[0..|key|] == key;
    assert started.kpos == t.kpos && started.khash == Hash(key);
    FirstSlotFound(Image(rs), key, started, HashPointer(Hash(key), RecordPos(rs, i)), rs[i], at);
    LoneSecondMissed(rs, key, i, started, entries, at2);
  }

  /** The call after the first of a lone key's search: it does not start
      over, and the slot it reads is free. */
  lemma LoneSecondMissed(rs: seq<Element>, key: seq<Byte>, i: nat, started: SearchState, entries: seq<SlotEntry>, at2: nat)
    requires Fits(rs) && i < |rs| && rs[i].key == key && started.loop == 0 && started.hslots == 2
    requires Count(Pointers(rs), Bucket(Hash(key))) == 1 && |entries| == BUCKETS
    requires Narrow(started) && OnChain(rs, key, AsSearch(started))
    ensures SearchedAsWritten(Image(rs), Some(entries), BufferState(key, 0, |key|), Advance(started), at2).0 == Miss
  {
    LoneSlots(rs, key, i);
    var w := Home(Hash(key), 2);
    var next := Advance(started);
    AdvanceAgrees(rs, key, started);
    assert AsSearch(next).hslots == 2 && AsSearch(next).loop == 1 && Step(w, 1, 2) == 1 - w;
    SlotOfImage(rs, Bucket(Hash(key)), 1 - w, AsSearch(next).kpos);
    assert next.kpos == AsSearch(next).kpos;
    assert key[0..|key|] == key;
    FreeSlotMissed(Image(rs), key, next, at2);
  }

  lemma {:induction false} Pow2Up(a: nat, b: nat)
    requires a <= b
    ensures Pow2(a) <= Pow2(b)
    decreases b - a
  {
    if a < b {
      Pow2Up(a, b - 1);
    }
  }

  lemma Pow2Add6(k: nat)
    ensures Pow2(k + 6) == 64 * Pow2(k)
  {
    assert Pow2(k + 6) == 2 * Pow2(k + 5) == 4 * Pow2(k + 4) == 8 * Pow2(k + 3);
    assert Pow2(k + 3) == 2 * Pow2(k + 2) == 4 * Pow2(k + 1) == 8 * Pow2(k);
  }

  /** One more byte multiplies a hash below `2^k` by 33, which does not
      wrap, and xors in the byte: the hash stays below `2^(k + 6)`. */
  lemma HashGrows(s: seq<Byte>, c: Byte, k: nat)
    requires 2 <= k <= 26 && Hash(s) < Pow2(k)
    ensures Hash(s + [c]) < Pow2(k + 6)
  {
    var h := Hash(s);
    var p := Pow2(k + 6);
    assert p == 64 * Pow2(k) by { Pow2Add6(k); }
    assert p <= TWO_32 by { Pow2Up(k + 6, 32); Pow2of32(); }
    assert 256 <= p by { Pow2Up(8, k + 6); Pow2Add8(0); }
    assert 0 <= h * 33 < p;
    assert Hash(s + [c]) == Xor32(h * 33, Value(c)) by { HashSnoc(s, c); }
    Xor32Below(h * 33, Value(c), k + 6);
  }

  /** Two values below `2^k <= 2^32` xor to a value below `2^k`. */
  lemma Xor32Below(x: int, v: int, k: nat)
    requires 0 <= x < Pow2(k) && 0 <= v < Pow2(k) && Pow2(k) <= TWO_32
    ensures Xor32(x, v) < Pow2(k)
  {
    UnsignedOfU32(x);
    UnsignedOfU32(v);
    XorBound(x, v, k);
  }

  /** A key of three bytes has a hash below 2^31: 5381 is below 2^13 and
      each byte adds at most six bits, so the `int` against `long`
      comparison never affects it. */
  lemma ShortKeyHash(k: seq<Byte>)
    requires |k| == 3
    ensures Hash(k) <= INT_MAX
  {
    assert Hash(k[..0]) < Pow2(13) by {
      assert Pow2(5) == 32;
      Pow2Add8(5);
    }
    assert k[..0] + [k[0]] == k[..1] && k[..1] + [k[1]] == k[..2] && k[..2] + [k[2]] == k;
    HashGrows(k[..0], k[0], 13);
    HashGrows(k[..1], k[1], 19);
    HashGrows(k[..2], k[2], 25);
    assert Pow2(31) == INT_MAX + 1 by {
      Pow2of32();
      assert Pow2(32) == 2 * Pow2(31);
    }
  }
}
