/** What the reference enumeration gives on a file the builder made: the
    header's first entry is the end of the record region, each `nextElement`
    returns the next record, and the enumeration returns exactly the records
    in the order they were added. `dump` of that file is then the text that
    `make` turns back into the same file. */
module ElementsCorrect {
  import opened Bytes
  import opened Seqs
  import opened CdbFormat
  import opened CdbLayout
  import opened CdbReader
  import opened LookupCorrect
  import opened StreamEnumeration
  import opened ChannelEnumeration
  import opened TextFormat
  import opened Dump
  import opened MakeText

  /** `elements` reads the end of the record region of a file the builder made. */
  lemma EodOfImage(rs: seq<Element>)
    requires Fits(rs)
    ensures HEADER_SIZE <= |Image(rs)| && StreamInt(Image(rs), 0) == Eod(rs) && Eod(rs) <= |Image(rs)|
  {
    ImageSize(rs);
    FirstTableAtEod(rs);
    StreamIntOfRead(Image(rs), 0, Eod(rs));
  }

  /** An `int` stored as four bytes is read back by the stream. */
  lemma StreamIntOfRead(file: seq<Byte>, q: int, v: int)
    requires 0 <= q && q + 4 <= |file| && 0 <= v <= INT_MAX && ReadLe(file, q) == Unsigned(v)
    ensures StreamInt(file, q) == v
  {
    StreamIntAt(file, q);
    UnsignedOfU32(v);
  }

  /** A stored record's two lengths, key and data, as the stream reads them. */
  lemma StoredFields(file: seq<Byte>, at: nat, e: Element)
    requires RecordHolds(file, at, e) && at + 8 + |e.key| + |e.data| <= INT_MAX
    ensures at + 8 + |e.key| + |e.data| <= |file|
    ensures StreamInt(file, at) == |e.key| && StreamInt(file, at + 4) == |e.data|
    ensures file[at + 8..at + 8 + |e.key|] == e.key
    ensures file[at + 8 + |e.key|..at + 8 + |e.key| + |e.data|] == e.data
  {
    RecordRead(file, at, e);
    StreamIntAt(file, at);
    StreamIntAt(file, at + 4);
  }

  /** In any stream, `nextElement` at a stored record returns it and moves
      the stream offset and `pos` past it. */
  lemma NextOfStored(file: seq<Byte>, at: nat, e: Element, next: int)
    requires RecordHolds(file, at, e) && next == at + 8 + |e.key| + |e.data| && next <= INT_MAX
    ensures NextOf(file, at, at) == (Delivered(e), next, next)
  {
    StoredRecordFrom(file, at, e, next);
    LengthsSkipped(at);
    NextOfLengths(file, at, at, |e.key|, |e.data|, at + 8);
  }

  /** `nextElement` once the two lengths it reads and the new `pos` are known. */
  lemma NextOfLengths(input: seq<Byte>, at: nat, pos: Int32, klen: Int32, dlen: Int32, p: Int32)
    requires at + 8 <= |input| && StreamInt(input, at) == klen && StreamInt(input, at + 4) == dlen
    requires p == Wrap32(Wrap32(pos + 4) + 4)
    ensures NextOf(input, at, pos) == RecordFrom(input, at + 8, p, klen, dlen)
  {
    NextOfRead(input, at, pos);
  }

  /** A stored record's lengths, then its key and data, as the stream reads them. */
  lemma StoredRecordFrom(file: seq<Byte>, at: nat, e: Element, next: int)
    requires RecordHolds(file, at, e) && next == at + 8 + |e.key| + |e.data| && next <= INT_MAX
    ensures StreamInt(file, at) == |e.key| && StreamInt(file, at + 4) == |e.data|
    ensures RecordFrom(file, at + 8, at + 8, |e.key|, |e.data|) == (Delivered(e), next, next)
  {
    StoredFields(file, at, e);
  }

  /** Past both lengths of a record that ends within the largest `int`,
      `pos` is 8 further on. */
  lemma LengthsSkipped(at: nat)
    requires at + 8 <= INT_MAX
    ensures Wrap32(Wrap32(at + 4) + 4) == at + 8
  {
  }

  /** The record after record `k` begins where record `k` ends. */
  lemma RecordPosNext(rs: seq<Element>, k: nat)
    requires k < |rs|
    ensures RecordPos(rs, k + 1) == RecordPos(rs, k) + 8 + |rs[k].key| + |rs[k].data|
  {
    assert rs[..k + 1][..k] == rs[..k];
  }

  /** The end of the record region is the position after the last record. */
  lemma EodIsLastPos(rs: seq<Element>)
    ensures RecordPos(rs, |rs|) == Eod(rs)
  {
    assert rs[..|rs|] == rs;
  }

  /** Records `k` onwards of `rs` are stored in `file` at their positions. */
  ghost predicate StoredFrom(rs: seq<Element>, file: seq<Byte>, k: nat)
    decreases |rs| - k
  {
    k >= |rs| || (RecordHolds(file, RecordPos(rs, k), rs[k]) && StoredFrom(rs, file, k + 1))
  }

  /** The file the builder made stores every record from `k` on. */
  lemma {:induction false} StoredInImage(rs: seq<Element>, k: nat)
    requires Fits(rs)
    ensures StoredFrom(rs, Image(rs), k)
    decreases |rs| - k
  {
    if k < |rs| {
      RecordInImage(rs, k);
      StoredInImage(rs, k + 1);
    }
  }

  /** In any stream holding the records of `rs` one after the other from
      2048 on, the enumeration from record `k` returns the remaining records
      in order and stops at the end of the last one. */
  lemma {:induction false} ElementsFromStored(rs: seq<Element>, file: seq<Byte>, eod: Int32, k: nat)
    requires k <= |rs| && eod == RecordPos(rs, |rs|) && eod <= |file| && RecordPos(rs, k) <= eod
    requires StoredFrom(rs, file, k)
    ensures ElementsFrom(file, RecordPos(rs, k), RecordPos(rs, k), eod) == (rs[k..], true)
    decreases |rs| - k
  {
    if k == |rs| {
      ElementsEnd(file, RecordPos(rs, k), RecordPos(rs, k), eod);
      assert rs[k..] == [];
    } else {
      var p := RecordPos(rs, k);
      var p1 := RecordPos(rs, k + 1);
      RecordPosNext(rs, k);
      if k + 1 < |rs| {
        RecordPosIncreasing(rs, k + 1, |rs|);
      }
      assert p1 <= eod;
      NextOfStored(file, p, rs[k], p1);
      ElementsNext(file, p, p, eod, rs[k], p1, p1);
      ElementsFromStored(rs, file, eod, k + 1);
      ConsSuffix(rs, k + 1);
    }
  }

  /** The enumeration `elements` opens on a file the builder made returns
      exactly the records, in the order they were added. */
  lemma ElementsOfImage(rs: seq<Element>)
    requires Fits(rs)
    ensures HEADER_SIZE <= |Image(rs)|
    ensures ElementsFrom(Image(rs), HEADER_SIZE, HEADER_SIZE, StreamInt(Image(rs), 0)) == (rs, true)
  {
    EodOfImage(rs);
    StoredInImage(rs, 0);
    ElementsOfStored(rs, Image(rs), Eod(rs));
  }

  /** In any stream holding the records of `rs` one after the other from
      2048 on, with the end of the last one as its first `int`, the
      enumeration returns exactly the records. */
  lemma ElementsOfStored(rs: seq<Element>, file: seq<Byte>, eod: Int32)
    requires StoredFrom(rs, file, 0) && HEADER_SIZE <= |file| && eod == Eod(rs) <= |file| && StreamInt(file, 0) == eod
    ensures ElementsFrom(file, HEADER_SIZE, HEADER_SIZE, StreamInt(file, 0)) == (rs, true)
  {
    EodIsLastPos(rs);
    assert rs[..0] == [];
    RecordPosIncreasingOrEqual(rs);
    ElementsFromStored(rs, file, eod, 0);
    assert rs[0..] == rs;
  }

  /** The first record is stored at 2048, before the end of the last one. */
  lemma RecordPosIncreasingOrEqual(rs: seq<Element>)
    ensures RecordPos(rs, 0) == HEADER_SIZE <= RecordPos(rs, |rs|)
  {
    assert rs[..0] == [];
    if |rs| > 0 {
      RecordPosIncreasing(rs, 0, |rs|);
    }
  }

  /** The library's enumeration over a channel holding the records of `rs`
      one after the other from 2048 on returns them as well. */
  lemma {:induction false} ChannelElementsFromStored(rs: seq<Element>, file: seq<Byte>, eod: Int32, k: nat)
    requires k <= |rs| && eod == RecordPos(rs, |rs|) && eod <= |file| && RecordPos(rs, k) <= eod
    requires StoredFrom(rs, file, k)
    ensures ElementsOnChannel(file, RecordPos(rs, k), RecordPos(rs, k), eod) == (rs[k..], true)
    decreases |rs| - k
  {
    if k == |rs| {
      assert rs[k..] == [];
    } else {
      var p := RecordPos(rs, k);
      var p1 := RecordPos(rs, k + 1);
      RecordPosNext(rs, k);
      if k + 1 < |rs| {
        RecordPosIncreasing(rs, k + 1, |rs|);
      }
      assert p1 <= eod;
      NextOfStored(file, p, rs[k], p1);
      NextOnChannelAgrees(file, p, p);
      ElementsOnChannelNext(file, p, p, eod, rs[k], p1, p1);
      ChannelElementsFromStored(rs, file, eod, k + 1);
      ConsSuffix(rs, k + 1);
    }
  }

  /** The library's enumeration of a file the builder made, from the `eod`
      its `elements` decodes, returns exactly the records in the order they
      were added. */
  lemma ChannelElementsOfImage(rs: seq<Element>)
    requires Fits(rs)
    ensures HEADER_SIZE <= |Image(rs)|
    ensures ElementsOnChannel(Image(rs), HEADER_SIZE, HEADER_SIZE, Wrap32(ReadLe(Image(rs), 0))) == (rs, true)
  {
    EodOfImage(rs);
    StreamIntAt(Image(rs), 0);
    EodIsLastPos(rs);
    ImageSize(rs);
    StoredInImage(rs, 0);
    assert rs[..0] == [];
    ChannelElementsFromStored(rs, Image(rs), Eod(rs), 0);
    assert rs[0..] == rs;
  }

  /** Every record of a file that fits has lengths below `2^31`. */
  lemma FitsStorable(rs: seq<Element>)
    requires Fits(rs)
    ensures Storable(rs)
  {
    forall k | 0 <= k < |rs|
      ensures |rs[k].key| <= INT_MAX && |rs[k].data| <= INT_MAX
    {
      RecordInImage(rs, k);
    }
  }

  /** `dump` of a file the builder made writes the text of its records,
      and `make` turns that text back into the same file. */
  lemma DumpMakeRoundTrip(rs: seq<Element>)
    requires Fits(rs)
    ensures HEADER_SIZE <= |Image(rs)|
    ensures DumpOf(ElementsFrom(Image(rs), HEADER_SIZE, HEADER_SIZE, StreamInt(Image(rs), 0)).0, ElementsFrom(Image(rs), HEADER_SIZE, HEADER_SIZE, StreamInt(Image(rs), 0)).1) == (DumpText(rs), true)
    ensures MakeSpec(DumpText(rs), {}, false) == Made(Image(rs))
  {
    ElementsOfImage(rs);
    FitsStorable(rs);
    MakeOfDump(rs, false);
  }
}
