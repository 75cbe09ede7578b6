/** `CdbMake.make`: build a cdb from its text form. The input is read one
    byte at a time; each record is added to a fresh builder as soon as its
    data has been read, unless its data is a key of the ignore database; the
    first malformed line stops the build with an error, an empty line or the
    end of the input finishes it. */
module MakeText {
  import opened Bytes
  import opened Seqs
  import opened CdbFormat
  import opened CdbLayout
  import opened TextFormat
  import opened CdbMake

  /** What `make` ends with: the bytes of the finished file, the error that
      stopped the reading, or a file that would grow beyond the largest `int`
      position ("CDB file is too big."). */
  datatype MakeOutcome = Made(file: seq<Byte>) | Rejected(error: ParseError) | TooBig

  /** The records that are added: those whose data is not a key of the ignore
      database (no ignore database is the empty set). */
  function Kept(rs: seq<Element>, ignore: set<seq<Byte>>): (r: seq<Element>)
    ensures |r| <= |rs|
  {
    if rs == [] then []
    else Kept(rs[..|rs| - 1], ignore) + (if rs[|rs| - 1].data in ignore then [] else [rs[|rs| - 1]])
  }

  lemma KeptSnoc(rs: seq<Element>, e: Element, ignore: set<seq<Byte>>)
    ensures Kept(rs + [e], ignore) == Kept(rs, ignore) + (if e.data in ignore then [] else [e])
  {
    assert (rs + [e])[..|rs|] == rs;
  }

  /** Filtering a concatenation filters each part. */
  lemma {:induction false} KeptAppend(a: seq<Element>, b: seq<Element>, ignore: set<seq<Byte>>)
    ensures Kept(a + b, ignore) == Kept(a, ignore) + Kept(b, ignore)
    decreases |b|
  {
    if b != [] {
      var init, last := b[..|b| - 1], b[|b| - 1];
      KeptAppend(a, init, ignore);
      assert a + b == (a + init) + [last];
      assert b == init + [last];
      KeptSnoc(a + init, last, ignore);
      KeptSnoc(init, last, ignore);
    } else {
      assert a + b == a;
    }
  }

  /** A record is kept exactly when it is one of the records and its data is
      not ignored; the order is that of the input. */
  lemma {:induction false} KeptMembers(rs: seq<Element>, ignore: set<seq<Byte>>, e: Element)
    ensures e in Kept(rs, ignore) <==> e in rs && e.data !in ignore
    decreases |rs|
  {
    if rs != [] {
      KeptMembers(rs[..|rs| - 1], ignore, e);
      assert rs == rs[..|rs| - 1] + [rs[|rs| - 1]];
    }
  }

  /** With nothing to ignore every record is kept. */
  lemma {:induction false} KeptAll(rs: seq<Element>)
    ensures Kept(rs, {}) == rs
    decreases |rs|
  {
    if rs != [] {
      KeptAll(rs[..|rs| - 1]);
      assert rs == rs[..|rs| - 1] + [rs[|rs| - 1]];
    }
  }

  /** How the reading of `make` ends: with the records added, ready for
      `finish`, or with the outcome of a build stopped early. */
  datatype Ending = Finishing(kept: seq<Element>) | Stopping(outcome: MakeOutcome)

  /** How reading `input` ends when every record is read first and the kept
      ones are added afterwards. Each `add` fails once the records added so
      far, after the header, end beyond the largest `int`; since every record
      is added before the next line is read, that failure comes before any
      later format error. Otherwise a format error stops the build. */
  function ReadAndKeep(input: seq<Byte>, ignore: set<seq<Byte>>): Ending
  {
    var got := ReadRecords(input, 0);
    Decided(Kept(got.records, ignore), got.error)
  }

  /** How reading ends once the records to add are `kept` and the reading
      stopped at `error`, if any. */
  function Decided(kept: seq<Element>, error: Option<ParseError>): Ending
  {
    if HEADER_SIZE + RecordsSize(kept) > INT_MAX then Stopping(TooBig)
    else if error.Some? then Stopping(Rejected(error.value))
    else Finishing(kept)
  }

  /** `finish` over the records added: the file, unless its tables would end
      beyond the largest `int`. */
  function Finished(kept: seq<Element>, intHash: bool): MakeOutcome
  {
    if HEADER_SIZE + RecordsSize(kept) + 16 * |kept| > INT_MAX then TooBig
    else Made(Layout(RecordsBytes(kept), PointersWith(kept, intHash)))
  }

  /** The outcome of a build whose reading ended with `ending`. */
  function Concluded(ending: Ending, intHash: bool): MakeOutcome
  {
    match ending
    case Finishing(kept) => Finished(kept, intHash)
    case Stopping(outcome) => outcome
  }

  /** What `make` produces for an input. */
  function MakeSpec(input: seq<Byte>, ignore: set<seq<Byte>>, intHash: bool): MakeOutcome
  {
    Concluded(ReadAndKeep(input, ignore), intHash)
  }

  /** `make` rebuilds, from the text `dump` writes, the file of the same
      records, in the same order, when nothing is ignored and the file fits. */
  lemma MakeOfDump(es: seq<Element>, intHash: bool)
    requires Storable(es) && HEADER_SIZE + RecordsSize(es) + 16 * |es| <= INT_MAX
    ensures MakeSpec(DumpText(es), {}, intHash) == Made(Layout(RecordsBytes(es), PointersWith(es, intHash)))
  {
    ReadDump(es);
    MakeOfRead(DumpText(es), es, intHash);
  }

  /** `make` of any text that reads as the records `es` without an error
      builds the file of `es` when nothing is ignored and the file fits. */
  lemma MakeOfRead(input: seq<Byte>, es: seq<Element>, intHash: bool)
    requires ReadRecords(input, 0) == Ingested(es, None) && HEADER_SIZE + RecordsSize(es) + 16 * |es| <= INT_MAX
    ensures MakeSpec(input, {}, intHash) == Made(Layout(RecordsBytes(es), PointersWith(es, intHash)))
  {
    KeptAll(es);
  }

  /** One of `make`'s inner loops: the digits of a length up to `sep`, read
      from the input stream positioned at `p`. */
  method ParseLength(input: seq<Byte>, p: nat, sep: int, tooBig: ParseError) returns (r: Length)
    requires p <= |input| && 0 <= sep
    ensures r == ReadLength(input, p, 0, sep, tooBig)
  {
    var n: Int32 := 0;
    var q := p;
    while true
      invariant p <= q <= |input|
      invariant ReadLength(input, q, n, sep, tooBig) == ReadLength(input, p, 0, sep, tooBig)
      decreases |input| - q
    {
      var ch := Read(input, q);
      q := q + 1;
      if ch == sep {
        return Length(n, q);
      }
      if !IsDigit(ch) {
        return LengthFailed(Format);
      }
      if n > LENGTH_GUARD {
        return LengthFailed(tooBig);
      }
      n := Wrap32(n * 10 + (ch - ZERO));
    }
  }

  /** `new byte[n]` filled by `n` reads, each of which must not hit the end
      of the stream ("input file is truncated"). */
  method ReadBytes(input: seq<Byte>, p: nat, n: nat) returns (ok: bool, bytes: seq<Byte>)
    requires p <= |input|
    ensures ok <==> p + n <= |input|
    ensures ok ==> bytes == input[p..p + n]
  {
    var buffer := new Byte[n];
    var i := 0;
    while i < n
      invariant 0 <= i <= n && p + i <= |input|
      invariant buffer[..i] == input[p..p + i]
    {
      var ch := Read(input, p + i);
      if ch == -1 {
        return false, [];
      }
      buffer[i] := ByteOf(ch);
      i := i + 1;
    }
    return true, buffer[..];
  }

  /** The body of `make`'s loop up to the data: the `+`, both lengths, the
      key, `->` and the data. */
  method ParseLine(input: seq<Byte>, p: nat) returns (line: Line)
    requires p <= |input|
    ensures line == ReadLine(input, p)
  {
    var ch := Read(input, p);
    if ch == -1 || ch == NEWLINE {
      return End;
    }
    if ch != PLUS {
      return Failed(Format);
    }
    var klen := ParseLength(input, p + 1, COMMA, KeyTooBig);
    if klen.LengthFailed? {
      return Failed(klen.error);
    }
    var dlen := ParseLength(input, klen.next, COLON, DataTooBig);
    if dlen.LengthFailed? {
      return Failed(dlen.error);
    }
    var k := dlen.next;
    if klen.n < 0 {
      return Failed(NegativeSize);
    }
    var ok, key := ReadBytes(input, k, klen.n);
    if !ok {
      return Failed(Truncated);
    }
    if Read(input, k + klen.n) != MINUS || Read(input, k + klen.n + 1) != GREATER {
      return Failed(Format);
    }
    if dlen.n < 0 {
      return Failed(NegativeSize);
    }
    var data;
    ok, data := ReadBytes(input, k + klen.n + 2, dlen.n);
    if !ok {
      return Failed(Truncated);
    }
    return Record(Element(key, data), k + klen.n + 2 + dlen.n);
  }

  /** The loop of `make` over the records `rs` still to read, with `kept`
      already added: each record is added, unless its data is ignored, as
      soon as it is read, and the first `add` that fails stops the build;
      after the last record, the error that ended the reading stops it, if
      there is one. */
  function AddAll(rs: seq<Element>, error: Option<ParseError>, ignore: set<seq<Byte>>, kept: seq<Element>): Ending
    decreases |rs|
  {
    if rs == [] then
      if error.Some? then Stopping(Rejected(error.value)) else Finishing(kept)
    else if rs[0].data !in ignore && HEADER_SIZE + RecordsSize(kept) + 8 + |rs[0].key| + |rs[0].data| > INT_MAX then
      Stopping(TooBig)
    else
      AddAll(rs[1..], error, ignore, if rs[0].data in ignore then kept else kept + [rs[0]])
  }

  /** The loop of `make` once it has read the record `e`, up to `j`, with
      `kept` added before it: the record is added unless its data is
      ignored, and then the newline after it is checked. */
  function AfterRecord(s: seq<Byte>, e: Element, j: nat, ignore: set<seq<Byte>>, kept: seq<Element>): Ending
  {
    if e.data !in ignore && HEADER_SIZE + RecordsSize(kept) + 8 + |e.key| + |e.data| > INT_MAX then Stopping(TooBig)
    else if Read(s, j) != NEWLINE then Stopping(Rejected(Format))
    else AddAll(ReadRecords(s, j + 1).records, ReadRecords(s, j + 1).error, ignore, if e.data in ignore then kept else kept + [e])
  }

  /** The loop of `make` one line at a time: the end of the input finishes,
      a malformed line stops the build, and a record is added (unless its
      data is ignored) before its newline is checked. */
  lemma AddAllLine(s: seq<Byte>, p: nat, ignore: set<seq<Byte>>, kept: seq<Element>)
    ensures var line := ReadLine(s, p);
      AddAll(ReadRecords(s, p).records, ReadRecords(s, p).error, ignore, kept) ==
        if line.End? then Finishing(kept)
        else if line.Failed? then Stopping(Rejected(line.error))
        else AfterRecord(s, line.element, line.next, ignore, kept)
  {
    var line, got := ReadLine(s, p), ReadRecords(s, p);
    if line.End? {
      assert got == Ingested([], None);
    } else if line.Failed? {
      assert got == Ingested([], Some(line.error));
    } else if Read(s, line.next) != NEWLINE {
      assert got == Ingested([line.element], Some(Format));
    } else {
      var rest := ReadRecords(s, line.next + 1);
      assert got == Ingested([line.element] + rest.records, rest.error);
      assert ([line.element] + rest.records)[1..] == rest.records;
    }
  }

  /** Adding the records one by one as they are read ends as adding the kept
      ones all at once would: an `add` can only fail when the kept records
      overall end beyond the largest `int`, and it fails before any error
      read after it. */
  lemma {:induction false} AddAllKept(rs: seq<Element>, error: Option<ParseError>, ignore: set<seq<Byte>>, kept: seq<Element>)
    requires HEADER_SIZE + RecordsSize(kept) <= INT_MAX
    ensures AddAll(rs, error, ignore, kept) == Decided(kept + Kept(rs, ignore), error)
    decreases |rs|
  {
    if rs == [] {
      assert kept + Kept(rs, ignore) == kept;
    } else {
      var next := if rs[0].data in ignore then kept else kept + [rs[0]];
      KeptFirst(rs, ignore, kept);
      RecordsSnoc(kept, rs[0]);
      RecordsSizeAppend(next, Kept(rs[1..], ignore));
      if rs[0].data in ignore || HEADER_SIZE + RecordsSize(kept) + 8 + |rs[0].key| + |rs[0].data| <= INT_MAX {
        AddAllKept(rs[1..], error, ignore, next);
      }
    }
  }

  /** The first record, kept unless its data is ignored, then the rest. */
  lemma KeptFirst(rs: seq<Element>, ignore: set<seq<Byte>>, kept: seq<Element>)
    requires rs != []
    ensures kept + Kept(rs, ignore) == (if rs[0].data in ignore then kept else kept + [rs[0]]) + Kept(rs[1..], ignore)
  {
    var e, rest := rs[0], rs[1..];
    assert rs == [e] + rest;
    KeptAppend([e], rest, ignore);
    KeptSnoc([], e, ignore);
    assert [e][..0] == [];
  }

  /** The loop of `make`: read the lines of `input` one by one into a
      started builder, adding each record unless its data is ignored. */
  method AddLines(cdbMake: CdbMake, input: seq<Byte>, ignore: set<seq<Byte>>) returns (stopped: Option<MakeOutcome>)
    requires cdbMake.Valid() && cdbMake.records == []
    modifies cdbMake, cdbMake.tableCount
    ensures stopped.Some? <==> AddAll(ReadRecords(input, 0).records, ReadRecords(input, 0).error, ignore, []).Stopping?
    ensures stopped.Some? ==> stopped.value == AddAll(ReadRecords(input, 0).records, ReadRecords(input, 0).error, ignore, []).outcome
    ensures stopped.None? ==> cdbMake.Valid() && cdbMake.records == AddAll(ReadRecords(input, 0).records, ReadRecords(input, 0).error, ignore, []).kept
    ensures cdbMake.tableCount == old(cdbMake.tableCount) && cdbMake.tableStart == old(cdbMake.tableStart)
  {
    var p := 0;
    while true
      invariant cdbMake.Valid() && p <= |input|
      invariant cdbMake.pos == HEADER_SIZE + RecordsSize(cdbMake.records)
      invariant AddAll(ReadRecords(input, p).records, ReadRecords(input, p).error, ignore, cdbMake.records) ==
                AddAll(ReadRecords(input, 0).records, ReadRecords(input, 0).error, ignore, [])
      invariant cdbMake.tableCount == old(cdbMake.tableCount) && cdbMake.tableStart == old(cdbMake.tableStart)
      decreases |input| - p
    {
      var done, next;
      done, stopped, next := AddLine(cdbMake, input, ignore, p);
      if done {
        return;
      }
      p := next;
    }
  }

  /** One round of the loop of `make`: the line at `p`, and its record added
      unless its data is ignored. `done` is false when the loop goes on at
      the line at `next`. */
  method AddLine(cdbMake: CdbMake, input: seq<Byte>, ignore: set<seq<Byte>>, p: nat) returns (done: bool, stopped: Option<MakeOutcome>, next: nat)
    requires cdbMake.Valid() && p <= |input| && cdbMake.pos == HEADER_SIZE + RecordsSize(cdbMake.records)
    modifies cdbMake, cdbMake.tableCount
    ensures cdbMake.tableCount == old(cdbMake.tableCount) && cdbMake.tableStart == old(cdbMake.tableStart)
    ensures done && stopped.Some? ==> AddAll(ReadRecords(input, p).records, ReadRecords(input, p).error, ignore, old(cdbMake.records)) == Stopping(stopped.value)
    ensures done && stopped.None? ==> cdbMake.Valid() && AddAll(ReadRecords(input, p).records, ReadRecords(input, p).error, ignore, old(cdbMake.records)) == Finishing(cdbMake.records)
    ensures !done ==> cdbMake.Valid() && p < next <= |input| && cdbMake.pos == HEADER_SIZE + RecordsSize(cdbMake.records)
    ensures !done ==> (AddAll(ReadRecords(input, next).records, ReadRecords(input, next).error, ignore, cdbMake.records) ==
                       AddAll(ReadRecords(input, p).records, ReadRecords(input, p).error, ignore, old(cdbMake.records)))
  {
    AddAllLine(input, p, ignore, cdbMake.records);
    var line := ParseLine(input, p);
    if line.End? {
      return true, None, p;
    }
    if line.Failed? {
      return true, Some(Rejected(line.error)), p;
    }
    done, stopped, next := AddRecord(cdbMake, input, ignore, line.element, line.next);
  }

  /** The rest of a round once the record `e` is read up to `j`: it is
      added unless its data is ignored, then its newline is read. */
  method AddRecord(cdbMake: CdbMake, input: seq<Byte>, ignore: set<seq<Byte>>, e: Element, j: nat) returns (done: bool, stopped: Option<MakeOutcome>, next: nat)
    requires cdbMake.Valid() && j <= |input| && |e.key| <= INT_MAX && |e.data| <= INT_MAX
    requires cdbMake.pos == HEADER_SIZE + RecordsSize(cdbMake.records)
    modifies cdbMake, cdbMake.tableCount
    ensures cdbMake.tableCount == old(cdbMake.tableCount) && cdbMake.tableStart == old(cdbMake.tableStart)
    ensures done ==> stopped.Some? && AfterRecord(input, e, j, ignore, old(cdbMake.records)) == Stopping(stopped.value)
    ensures !done ==> cdbMake.Valid() && next == j + 1 <= |input| && cdbMake.pos == HEADER_SIZE + RecordsSize(cdbMake.records)
    ensures !done ==> (AfterRecord(input, e, j, ignore, old(cdbMake.records)) ==
                       AddAll(ReadRecords(input, next).records, ReadRecords(input, next).error, ignore, cdbMake.records))
  {
    var ok := AddUnlessIgnored(cdbMake, e, ignore);
    if !ok {
      return true, Some(TooBig), j;
    }
    if Read(input, j) != NEWLINE {
      return true, Some(Rejected(Format)), j;
    }
    return false, None, j + 1;
  }

  /** `if (ignoreCdb == null || ignoreCdb.find(data) == null) add(key, data)`:
      `ok` is false when the `add` fails. */
  method AddUnlessIgnored(cdbMake: CdbMake, e: Element, ignore: set<seq<Byte>>) returns (ok: bool)
    requires cdbMake.Valid() && |e.key| <= INT_MAX && |e.data| <= INT_MAX
    modifies cdbMake, cdbMake.tableCount
    ensures cdbMake.tableCount == old(cdbMake.tableCount) && cdbMake.tableStart == old(cdbMake.tableStart)
    ensures ok <==> e.data in ignore || HEADER_SIZE + RecordsSize(old(cdbMake.records)) + 8 + |e.key| + |e.data| <= INT_MAX
    ensures ok ==> cdbMake.Valid() && cdbMake.pos == HEADER_SIZE + RecordsSize(cdbMake.records)
    ensures ok ==> cdbMake.records == if e.data in ignore then old(cdbMake.records) else old(cdbMake.records) + [e]
  {
    cdbMake.ValidSize();
    ok := true;
    if e.data !in ignore {
      ok := cdbMake.Add(e.key, e.data);
      if ok {
        cdbMake.ValidSize();
      }
    }
  }

  /** `make`: start a builder, add the records line by line, finish. */
  method Make(input: seq<Byte>, ignore: set<seq<Byte>>, intHash: bool) returns (outcome: MakeOutcome)
    ensures outcome == MakeSpec(input, ignore, intHash)
  {
    var got := ReadRecords(input, 0);
    AddAllKept(got.records, got.error, ignore, []);
    assert [] + Kept(got.records, ignore) == Kept(got.records, ignore);
    var cdbMake := new CdbMake(intHash);
    cdbMake.Start();
    var stopped := AddLines(cdbMake, input, ignore);
    if stopped.Some? {
      return stopped.value;
    }
    cdbMake.ValidSize();
    var ok := cdbMake.Finish();
    if !ok {
      return TooBig;
    }
    return Made(cdbMake.file);
  }
}
