/** What the reference reader finds in a file the builder made: the header
    it decodes holds each table's position and length, a search walks the
    probe chain of the key's home slot, every data it returns is stored under
    the key, and a key that was added is found. */
module LookupCorrect {
  import opened Bytes
  import opened Seqs
  import opened CdbHash
  import opened CdbFormat
  import opened ProbeTable
  import opened CdbLayout
  import opened CdbReader

  /** The file ends within the largest `int` position, as `finish` ensures
      for every file it completes. */
  predicate Fits(rs: seq<Element>)
  {
    HEADER_SIZE + RecordsSize(rs) + 16 * |rs| <= INT_MAX
  }

  /** The table of bucket `b` ends no later than the tables do. */
  lemma TableWithin(ps: seq<HashPointer>, b: nat)
    requires b < BUCKETS
    ensures Before(ps, b) + Count(ps, b) <= |ps|
  {
    BeforeMono(ps, b, BUCKETS);
    BeforeAll(ps);
  }

  /** Two little-endian `int`s stored one after the other are read back. */
  lemma PairAt(file: seq<Byte>, q: int, a: int, c: int)
    requires 0 <= q && q + 8 <= |file| && file[q..q + 8] == LeBytes(a) + LeBytes(c)
    ensures IntAt(file, q) == Some(Wrap32(a)) && IntAt(file, q + 4) == Some(Wrap32(c))
  {
    SplitAt(file, q, LeBytes(a), LeBytes(c));
    ReadLeAt(file, q, a);
    ReadLeAt(file, q + 4, c);
    WrapUnsigned(a);
    WrapUnsigned(c);
  }

  /** Entry `k` of the decoded header is the `int` at `4 * k`. */
  lemma {:induction false} HeaderIntsAt(file: seq<Byte>, n: nat, k: nat)
    requires 4 * n <= |file| && k < n
    ensures IntAt(file, 4 * k) == Some(HeaderInts(file, n)[k])
    decreases n
  {
    if k < n - 1 {
      HeaderIntsAt(file, n - 1, k);
    }
  }

  /** Header entry `b` read back as two `int`s, whatever tables follow. */
  lemma HeaderIntsOfLayout(records: seq<Byte>, ps: seq<HashPointer>, ts: seq<Table>, b: nat)
    requires |ts| == BUCKETS && b < BUCKETS
    ensures IntAt(LayoutWith(records, ps, ts), 8 * b) == Some(Wrap32(TablePos(ps, HEADER_SIZE + |records|, b)))
    ensures IntAt(LayoutWith(records, ps, ts), 8 * b + 4) == Some(Wrap32(2 * Count(ps, b)))
  {
    var file := LayoutWith(records, ps, ts);
    HeaderOfLayout(records, ps, ts, b);
    PairAt(file, 8 * b, TablePos(ps, HEADER_SIZE + |records|, b), 2 * Count(ps, b));
  }

  /** The header the constructor decodes, whatever tables follow. */
  lemma SlotTableOfLayout(records: seq<Byte>, ps: seq<HashPointer>, ts: seq<Table>, b: nat)
    requires |ts| == BUCKETS && b < BUCKETS
    ensures SlotTable(LayoutWith(records, ps, ts)).Some?
    ensures SlotTable(LayoutWith(records, ps, ts)).value[2 * b] == Wrap32(TablePos(ps, HEADER_SIZE + |records|, b))
    ensures SlotTable(LayoutWith(records, ps, ts)).value[2 * b + 1] == Wrap32(2 * Count(ps, b))
  {
    var file := LayoutWith(records, ps, ts);
    assert |file| >= HEADER_SIZE;
    HeaderIntsOfLayout(records, ps, ts, b);
    assert 4 * (2 * b) == 8 * b && 4 * (2 * b + 1) == 8 * b + 4;
    HeaderIntsAt(file, 2 * BUCKETS, 2 * b);
    HeaderIntsAt(file, 2 * BUCKETS, 2 * b + 1);
  }

  /** The constructor decodes, from a file the builder made, each bucket's
      table position and slot count `2 * count`. */
  lemma HeaderOfImage(rs: seq<Element>, b: nat)
    requires Fits(rs) && b < BUCKETS
    ensures SlotTable(Image(rs)).Some?
    ensures SlotTable(Image(rs)).value[2 * b] == TablePos(Pointers(rs), Eod(rs), b)
    ensures SlotTable(Image(rs)).value[2 * b + 1] == 2 * Count(Pointers(rs), b)
  {
    var ps := Pointers(rs);
    var records := RecordsBytes(rs);
    TableWithin(ps, b);
    assert |ps| == |rs|;
    assert HEADER_SIZE + |records| == Eod(rs);
    SlotTableOfLayout(records, ps, Tables(ps), b);
  }

  /** The slot at `q` of `file` holds `o`: a free slot has position 0, a
      taken one the pointer's hash and position. */
  ghost predicate SlotHolds(file: seq<Byte>, q: int, o: Option<HashPointer>)
  {
    match o
    case None => IntAt(file, q + 4) == Some(0)
    case Some(p) => IntAt(file, q) == Some(Wrap32(p.hash)) && IntAt(file, q + 4) == Some(Wrap32(p.pos))
  }

  /** Slot `j` of table `b` read back, whatever the records. */
  lemma SlotIntsOfLayout(file: seq<Byte>, records: seq<Byte>, ps: seq<HashPointer>, ts: seq<Table>, eod: int, b: nat, j: nat)
    requires Sized(ps, ts) && b < BUCKETS && j < 2 * Count(ps, b)
    requires file == LayoutWith(records, ps, ts) && eod == HEADER_SIZE + |records|
    ensures SlotHolds(file, SlotPos(ps, eod, b, j), ts[b][j])
  {
    var q := SlotPos(ps, eod, b, j);
    SlotOfLayout(records, ps, ts, b, j);
    match ts[b][j]
    case None =>
      PairAt(file, q, 0, 0);
    case Some(p) =>
      PairAt(file, q, p.hash, p.pos);
  }

  /** A record's fields read back from where its bytes are stored. */
  lemma RecordRead(file: seq<Byte>, pos: int, e: Element)
    requires 0 <= pos && pos + 8 + |e.key| + |e.data| <= |file|
    requires file[pos..pos + 8 + |e.key| + |e.data|] == RecordBytes(e)
    ensures IntAt(file, pos) == Some(Wrap32(|e.key|)) && IntAt(file, pos + 4) == Some(Wrap32(|e.data|))
    ensures BytesAt(file, pos + 8, |e.key|) == Some(e.key)
    ensures BytesAt(file, pos + 8 + |e.key|, |e.data|) == Some(e.data)
  {
    var lengths := LeBytes(|e.key|) + LeBytes(|e.data|);
    assert RecordBytes(e) == (lengths + e.key) + e.data;
    SplitAt(file, pos, lengths + e.key, e.data);
    SplitAt(file, pos, lengths, e.key);
    PairAt(file, pos, |e.key|, |e.data|);
  }

  /** `e` is stored at `pos` of `file`. */
  ghost predicate RecordHolds(file: seq<Byte>, pos: int, e: Element)
  {
    0 <= pos && pos + 8 + |e.key| + |e.data| <= |file| && file[pos..pos + 8 + |e.key| + |e.data|] == RecordBytes(e)
  }

  /** A record examined for `key`: its data when its key is `key`, and
      otherwise a mismatch. */
  lemma ExamineStored(file: seq<Byte>, key: seq<Byte>, pos: Int32, e: Element)
    requires RecordHolds(file, pos, e) && |e.key| <= INT_MAX && |e.data| <= INT_MAX
    ensures Examine(file, key, pos) == if e.key == key then Ends(Hit(e.data)) else Mismatch
  {
    RecordRead(file, pos, e);
  }

  /** Every record of a file that fits is stored at its position, past the header. */
  lemma RecordInImage(rs: seq<Element>, i: nat)
    requires Fits(rs) && i < |rs|
    ensures RecordHolds(Image(rs), RecordPos(rs, i), rs[i])
    ensures HEADER_SIZE <= RecordPos(rs, i) <= INT_MAX && |rs[i].key| <= INT_MAX && |rs[i].data| <= INT_MAX
  {
    RecordOfImage(rs, i);
  }

  /** The pointer in a taken slot of bucket `b`'s table is that of a record
      whose key falls into bucket `b`. */
  lemma PointerOfSlot(rs: seq<Element>, b: int, j: nat) returns (i: nat)
    requires j < |BucketTable(Pointers(rs), b)| && BucketTable(Pointers(rs), b)[j].Some?
    ensures i < |rs| && BucketTable(Pointers(rs), b)[j].value == HashPointer(Hash(rs[i].key), RecordPos(rs, i))
    ensures Bucket(Hash(rs[i].key)) == b
  {
    var ps := Pointers(rs);
    var t := BucketTable(ps, b);
    var p := t[j].value;
    assert t[j] in multiset(t);
    BucketTableProperties(ps, b);
    assert p in multiset(InBucket(ps, b));
    InBucketMembers(ps, b, p);
    i :| 0 <= i < |ps| && ps[i] == p;
    PointersWithAt(rs, false, i);
  }

  /** A search for `key` in the file of `rs` that is walking the probe chain
      of the key's home slot: `loop` slots examined, `kpos` at the next one. */
  ghost predicate OnChain(rs: seq<Element>, key: seq<Byte>, s: Search)
  {
    var ps := Pointers(rs);
    var b := Bucket(Hash(key));
    var len := 2 * Count(ps, b);
    len > 0 && s.khash == Wrap32(Hash(key)) && s.hslots == len && s.hpos == TablePos(ps, Eod(rs), b) &&
    0 <= s.loop <= len && s.kpos == s.hpos + 8 * Step(Home(Hash(key), len), s.loop, len)
  }

  /** One step further along the chain is the next slot, back to slot 0
      after the last. */
  lemma StepNext(w: int, d: int, len: int)
    requires 0 <= w < len && 0 <= d < len
    ensures Step(w, d + 1, len) == if Step(w, d, len) + 1 == len then 0 else Step(w, d, len) + 1
  {
  }

  /** The tables of a file that fits end within the largest `int`. */
  lemma ChainWithin(rs: seq<Element>, b: nat)
    requires Fits(rs) && b < BUCKETS
    ensures TablePos(Pointers(rs), Eod(rs), b) + 8 * (2 * Count(Pointers(rs), b)) <= INT_MAX
  {
    TableWithin(Pointers(rs), b);
  }

  /** Examining a slot moves a search on the chain to the next slot of the chain. */
  lemma AdvancedOnChain(rs: seq<Element>, key: seq<Byte>, s: Search)
    requires Fits(rs) && OnChain(rs, key, s) && s.loop < s.hslots
    ensures OnChain(rs, key, Advanced(s))
  {
    var len := s.hslots;
    var w := Home(Hash(key), len);
    ChainWithin(rs, Bucket(Hash(key)));
    StepNext(w, s.loop, len);
    var j := Step(w, s.loop, len);
    assert Wrap32(s.kpos + 8) == s.hpos + 8 * (j + 1);
    assert Wrap32(s.hpos + s.hslots * 8) == s.hpos + 8 * len;
  }

  /** The slot a search on the chain examines next. */
  ghost function ChainSlot(rs: seq<Element>, key: seq<Byte>, s: Search): Option<HashPointer>
    requires OnChain(rs, key, s) && s.loop < s.hslots
  {
    BucketTable(Pointers(rs), Bucket(Hash(key)))[Step(Home(Hash(key), s.hslots), s.loop, s.hslots)]
  }

  /** Slot `j` of bucket `b`'s table, at `q`, read back from the file of `rs`. */
  lemma SlotOfImage(rs: seq<Element>, b: nat, j: nat, q: int)
    requires b < BUCKETS && j < 2 * Count(Pointers(rs), b) && q == SlotPos(Pointers(rs), Eod(rs), b, j)
    ensures SlotHolds(Image(rs), q, BucketTable(Pointers(rs), b)[j])
  {
    SlotInImage(rs, b, j);
  }

  /** Slot `j` of bucket `b`'s table read back from the file of `rs`, at its
      place in the table region. */
  lemma SlotInImage(rs: seq<Element>, b: nat, j: nat)
    requires b < BUCKETS && j < 2 * Count(Pointers(rs), b)
    ensures SlotHolds(Image(rs), SlotPos(Pointers(rs), Eod(rs), b, j), BucketTable(Pointers(rs), b)[j])
  {
    SlotReadBack(RecordsBytes(rs), Pointers(rs), Eod(rs), b, j);
  }

  /** Slot `j` of bucket `b`'s table read back from the layout of `records` and `ps`. */
  lemma SlotReadBack(records: seq<Byte>, ps: seq<HashPointer>, eod: int, b: nat, j: nat)
    requires b < BUCKETS && j < 2 * Count(ps, b) && eod == HEADER_SIZE + |records|
    ensures SlotHolds(Layout(records, ps), SlotPos(ps, eod, b, j), BucketTable(ps, b)[j])
  {
    TablesAt(ps, b);
    TablesSized(ps);
    SlotIntsOfLayout(Layout(records, ps), records, ps, Tables(ps), eod, b, j);
  }

  /** In any file, a free slot ends the walk where it is. */
  lemma WalkFree(file: seq<Byte>, key: seq<Byte>, s: Search)
    requires SlotHolds(file, s.kpos, None)
    ensures Walk(file, key, s) == (Miss, s)
  {
    WalkStops(file, key, s);
  }

  /** In any file, a taken slot whose pointer carries the hash of the key of
      the record it points at: that record's data when its key is `key`,
      and otherwise the walk goes on at the next slot. */
  lemma WalkTaken(file: seq<Byte>, key: seq<Byte>, s: Search, p: HashPointer, e: Element)
    requires s.loop < s.hslots && SlotHolds(file, s.kpos, Some(p)) && RecordHolds(file, p.pos, e)
    requires p.hash == Hash(e.key) && s.khash == Wrap32(Hash(key))
    requires 0 < p.pos <= INT_MAX && |e.key| <= INT_MAX && |e.data| <= INT_MAX
    ensures Walk(file, key, s) == if e.key == key then (Hit(e.data), Advanced(s)) else Walk(file, key, Advanced(s))
  {
    ExamineStored(file, key, p.pos, e);
    var h := Wrap32(p.hash);
    if e.key == key {
      WalkEnds(file, key, s, h, p.pos, Hit(e.data));
    } else {
      WalkPasses(file, key, s, h, p.pos);
    }
  }

  /** In the file of `rs`, a free slot ends the walk where it is. */
  lemma WalkAtFree(rs: seq<Element>, key: seq<Byte>, s: Search)
    requires OnChain(rs, key, s) && s.loop < s.hslots && ChainSlot(rs, key, s).None?
    ensures Walk(Image(rs), key, s) == (Miss, s)
  {
    SlotOfImage(rs, Bucket(Hash(key)), Step(Home(Hash(key), s.hslots), s.loop, s.hslots), s.kpos);
    WalkFree(Image(rs), key, s);
  }

  /** In the file of `rs`, a taken slot points at record `i`, whose data the
      walk returns when its key is `key`, and which the walk passes otherwise. */
  lemma WalkAtTaken(rs: seq<Element>, key: seq<Byte>, s: Search) returns (i: nat)
    requires Fits(rs) && OnChain(rs, key, s) && s.loop < s.hslots && ChainSlot(rs, key, s).Some?
    ensures i < |rs| && ChainSlot(rs, key, s).value == HashPointer(Hash(rs[i].key), RecordPos(rs, i))
    ensures Walk(Image(rs), key, s) == if rs[i].key == key then (Hit(rs[i].data), Advanced(s)) else Walk(Image(rs), key, Advanced(s))
  {
    var b := Bucket(Hash(key));
    var j := Step(Home(Hash(key), s.hslots), s.loop, s.hslots);
    i := PointerOfSlot(rs, b, j);
    SlotOfImage(rs, b, j, s.kpos);
    RecordInImage(rs, i);
    WalkTaken(Image(rs), key, s, BucketTable(Pointers(rs), b)[j].value, rs[i]);
  }

  /** A walk along the chain in the file of `rs` never throws, returns only
      data stored under the key, stays on the chain, and after `null` goes on
      returning `null` from where it stopped. */
  lemma {:induction false} WalkSound(rs: seq<Element>, key: seq<Byte>, s: Search)
    requires Fits(rs) && OnChain(rs, key, s)
    ensures !Walk(Image(rs), key, s).0.Thrown?
    ensures Walk(Image(rs), key, s).0.Hit? ==> Element(key, Walk(Image(rs), key, s).0.data) in rs
    ensures OnChain(rs, key, Walk(Image(rs), key, s).1)
    ensures Walk(Image(rs), key, s).0.Miss? ==> Walk(Image(rs), key, Walk(Image(rs), key, s).1) == Walk(Image(rs), key, s)
    ensures Walk(Image(rs), key, s).1 == s || Walk(Image(rs), key, s).1.loop > s.loop
    ensures Walk(Image(rs), key, s).0.Hit? ==> Walk(Image(rs), key, s).1.loop > s.loop
    decreases s.hslots - s.loop
  {
    if s.loop >= s.hslots {
      WalkStops(Image(rs), key, s);
    } else if ChainSlot(rs, key, s).None? {
      WalkAtFree(rs, key, s);
    } else {
      var i := WalkAtTaken(rs, key, s);
      AdvancedOnChain(rs, key, s);
      if rs[i].key == key {
        assert rs[i] == Element(key, rs[i].data);
      } else {
        WalkSound(rs, key, Advanced(s));
      }
    }
  }

  /** The low byte of a hash survives its wrap to an `int`. */
  lemma BucketOfWrap(x: int)
    ensures Bucket(Wrap32(x)) == Bucket(x)
  {
    var k := (Wrap32(x) - x) / TWO_32;
    assert Wrap32(x) == x + (k * 16777216) * 256;
  }

  /** The first call of a search, from a header that gives the key's bucket
      a table of `len > 0` slots at `hpos`, starts at the key's home slot. */
  lemma LocatedAt(table: seq<Int32>, key: seq<Byte>, hpos: int, len: int)
    requires |table| == 2 * BUCKETS && 0 <= hpos && 0 < len && hpos + 8 * len <= INT_MAX
    requires table[2 * Bucket(Wrap32(Hash(key)))] == hpos && table[2 * Bucket(Wrap32(Hash(key))) + 1] == len
    ensures Located(table, key) == Search(0, Wrap32(Hash(key)), len, hpos, hpos + 8 * Home(Hash(key), len))
  {
    var u := Wrap32(Hash(key));
    WrapUnsigned(Hash(key));
    assert JavaRem(Unsigned(u) / 256, len) == Home(Hash(key), len);
  }

  /** A key whose bucket has pointers: the first call of a search finds the
      bucket's table in the header and starts on the chain at the key's home
      slot. */
  lemma LocatedOnChain(rs: seq<Element>, key: seq<Byte>) returns (table: seq<Int32>)
    requires Fits(rs) && Count(Pointers(rs), Bucket(Hash(key))) > 0
    ensures SlotTable(Image(rs)) == Some(table) && |table| == 2 * BUCKETS
    ensures table[2 * Bucket(Wrap32(Hash(key))) + 1] != 0
    ensures OnChain(rs, key, Located(table, key))
  {
    var b := Bucket(Hash(key));
    BucketOfWrap(Hash(key));
    HeaderOfImage(rs, b);
    ChainWithin(rs, b);
    table := SlotTable(Image(rs)).value;
    var hpos := TablePos(Pointers(rs), Eod(rs), b);
    var len := 2 * Count(Pointers(rs), b);
    assert table[2 * Bucket(Wrap32(Hash(key)))] == hpos;
    assert table[2 * Bucket(Wrap32(Hash(key))) + 1] == len;
    assert 0 <= hpos;
    LocatedAt(table, key, hpos, len);
    var s := Located(table, key);
    assert s == Search(0, Wrap32(Hash(key)), len, hpos, hpos + 8 * Home(Hash(key), len));
    assert Step(Home(Hash(key), len), 0, len) == Home(Hash(key), len);
  }

  /** The empty bucket of a key: the header says its table has no slots. */
  lemma LocatedNowhere(rs: seq<Element>, key: seq<Byte>)
    requires Fits(rs) && Count(Pointers(rs), Bucket(Hash(key))) == 0
    ensures SlotTable(Image(rs)).Some?
    ensures SlotTable(Image(rs)).value[2 * Bucket(Wrap32(Hash(key))) + 1] == 0
    ensures SlotTable(Image(rs)).value[2 * Bucket(Hash(key)) + 1] == 0
  {
    BucketOfWrap(Hash(key));
    HeaderOfImage(rs, Bucket(Hash(key)));
  }

  /** `findnext(key)` on the file of `rs`, from the search state `s`. */
  ghost function FindNextOn(rs: seq<Element>, key: seq<Byte>, s: Search): (Found, Search)
  {
    Searched(Image(rs), SlotTable(Image(rs)), key, s)
  }

  /** A search state `findnext` can be called in: the first call of a search,
      or a later one still on the key's chain. */
  ghost predicate Resumable(rs: seq<Element>, key: seq<Byte>, s: Search)
  {
    s.loop == 0 || OnChain(rs, key, s)
  }

  /** On a file the builder made, `findnext` never throws, returns only data
      stored under the key, leaves a state it can be called in again, and
      once it returns `null` it keeps returning `null`. */
  lemma FindNextSound(rs: seq<Element>, key: seq<Byte>, s: Search)
    requires Fits(rs) && Resumable(rs, key, s)
    ensures !FindNextOn(rs, key, s).0.Thrown?
    ensures FindNextOn(rs, key, s).0.Hit? ==> Element(key, FindNextOn(rs, key, s).0.data) in rs
    ensures Resumable(rs, key, FindNextOn(rs, key, s).1)
    ensures FindNextOn(rs, key, s).0.Miss? ==> FindNextOn(rs, key, FindNextOn(rs, key, s).1) == FindNextOn(rs, key, s)
    ensures FindNextOn(rs, key, s).0.Hit? ==> FindNextOn(rs, key, s).1.loop > s.loop
  {
    var file := Image(rs);
    var b := Bucket(Hash(key));
    if s.loop == 0 {
      if Count(Pointers(rs), b) == 0 {
        LocatedNowhere(rs, key);
      } else {
        var table := LocatedOnChain(rs, key);
        var start := Located(table, key);
        WalkSound(rs, key, start);
      }
    } else {
      WalkSound(rs, key, s);
    }
  }

  /** Records added later sit further into the file. */
  lemma RecordPosIncreasing(rs: seq<Element>, a: nat, c: nat)
    requires a < c <= |rs|
    ensures RecordPos(rs, a) < RecordPos(rs, c)
  {
    RecordsSizePrefix(rs[..c], a);
    assert rs[..c][..a] == rs[..a];
  }

  /** Two records at the same position are the same record. */
  lemma RecordPosInjective(rs: seq<Element>, a: nat, c: nat)
    requires a < |rs| && c < |rs| && RecordPos(rs, a) == RecordPos(rs, c)
    ensures a == c
  {
    if a < c {
      RecordPosIncreasing(rs, a, c);
    } else if c < a {
      RecordPosIncreasing(rs, c, a);
    }
  }

  /** A walk on the chain with only taken slots up to the slot `d` steps
      from home, which points at record `i` of key `key`, returns data. */
  lemma {:induction false} WalkReaches(rs: seq<Element>, key: seq<Byte>, s: Search, i: nat, d: int)
    requires Fits(rs) && OnChain(rs, key, s) && i < |rs| && rs[i].key == key && s.loop <= d < s.hslots
    requires BucketTable(Pointers(rs), Bucket(Hash(key)))[Step(Home(Hash(key), s.hslots), d, s.hslots)] == Some(HashPointer(Hash(key), RecordPos(rs, i)))
    requires forall j :: s.loop <= j < d ==> BucketTable(Pointers(rs), Bucket(Hash(key)))[Step(Home(Hash(key), s.hslots), j, s.hslots)].Some?
    ensures Walk(Image(rs), key, s).0.Hit?
    decreases d - s.loop
  {
    var k := WalkAtTaken(rs, key, s);
    if s.loop == d {
      RecordPosInjective(rs, i, k);
    }
    if rs[k].key != key {
      AdvancedOnChain(rs, key, s);
      WalkReaches(rs, key, Advanced(s), i, d);
    }
  }

  /** On a file the builder made, the first `findnext` of a search for a key
      that was added returns data. */
  lemma FindComplete(rs: seq<Element>, key: seq<Byte>, data: seq<Byte>, s: Search)
    requires Fits(rs) && Element(key, data) in rs && s.loop == 0
    ensures FindNextOn(rs, key, s).0.Hit?
  {
    var i :| 0 <= i < |rs| && rs[i] == Element(key, data);
    var d := RecordOnChain(rs, key, i);
    var table := LocatedOnChain(rs, key);
    var start := Located(table, key);
    WalkReaches(rs, key, start, i, d);
  }

  /** The pointer of record `i` sits `d` slots along the probe chain from
      the home slot of its key, and every slot before it is taken. */
  lemma RecordOnChain(rs: seq<Element>, key: seq<Byte>, i: nat) returns (d: int)
    requires Fits(rs) && i < |rs| && rs[i].key == key
    ensures Count(Pointers(rs), Bucket(Hash(key))) > 0 && 0 <= d < 2 * Count(Pointers(rs), Bucket(Hash(key)))
    ensures BucketTable(Pointers(rs), Bucket(Hash(key)))[Step(Home(Hash(key), 2 * Count(Pointers(rs), Bucket(Hash(key)))), d, 2 * Count(Pointers(rs), Bucket(Hash(key))))]
      == Some(HashPointer(Hash(key), RecordPos(rs, i)))
    ensures forall j :: 0 <= j < d ==>
      BucketTable(Pointers(rs), Bucket(Hash(key)))[Step(Home(Hash(key), 2 * Count(Pointers(rs), Bucket(Hash(key)))), j, 2 * Count(Pointers(rs), Bucket(Hash(key))))].Some?
  {
    var ps := Pointers(rs);
    var b := Bucket(Hash(key));
    var p := HashPointer(Hash(key), RecordPos(rs, i));
    PointersWithAt(rs, false, i);
    InBucketMembers(ps, b, p);
    var t := BucketTable(ps, b);
    BucketTableProperties(ps, b);
    assert multiset(t)[Some(p)] > 0;
    var u :| 0 <= u < |t| && t[u] == Some(p);
    var len := |t|;
    var w := Home(Hash(key), len);
    d := Dist(w, u, len);
    StepDist(w, u, len);
  }

  /** Every record stored under `key` holds `data`. */
  ghost predicate OnlyData(rs: seq<Element>, key: seq<Byte>, data: seq<Byte>)
  {
    forall i :: 0 <= i < |rs| && rs[i].key == key ==> rs[i].data == data
  }

  /** On a file the builder made, the first `findnext` of a search for a
      key whose every record holds the same data returns that data. */
  lemma FindsOnlyData(rs: seq<Element>, key: seq<Byte>, data: seq<Byte>, s: Search)
    requires Fits(rs) && s.loop == 0 && Element(key, data) in rs && OnlyData(rs, key, data)
    ensures FindNextOn(rs, key, s).0 == Hit(data)
  {
    FindComplete(rs, key, data, s);
    FindNextSound(rs, key, s);
  }

  /** The data `findnext(key)` returns on the file of `rs` in the calls
      from the state `s` up to the first `null`. */
  ghost function FoundAll(rs: seq<Element>, key: seq<Byte>, s: Search): seq<seq<Byte>>
    requires Fits(rs) && Resumable(rs, key, s)
    decreases if s.loop == 0 then 1 else 0, s.hslots - s.loop
  {
    FindNextSound(rs, key, s);
    var (f, next) := FindNextOn(rs, key, s);
    if f.Hit? then [f.data] + FoundAll(rs, key, next) else []
  }

  /** The data of the records stored under `key`, in the order they were added. */
  function DataUnder(rs: seq<Element>, key: seq<Byte>): (r: seq<seq<Byte>>)
    ensures |r| <= |rs|
  {
    if rs == [] then []
    else DataUnder(rs[..|rs| - 1], key) + (if rs[|rs| - 1].key == key then [rs[|rs| - 1].data] else [])
  }

  /** The probe chain from the home slot of `key` in the file of `rs`: the
      table of its bucket, starting at the home slot and wrapping round. */
  ghost function Chain(rs: seq<Element>, key: seq<Byte>): (c: Table)
    ensures |c| == 2 * Count(Pointers(rs), Bucket(Hash(key)))
  {
    var t := BucketTable(Pointers(rs), Bucket(Hash(key)));
    if |t| == 0 then [] else t[Home(Hash(key), |t|)..] + t[..Home(Hash(key), |t|)]
  }

  /** The pointer `p` lies `d` or more slots along the chain `c`, and every
      slot from `d` up to it is taken. */
  ghost predicate AheadIn(c: Table, p: HashPointer, d: nat)
    decreases |c| - d
  {
    d < |c| && c[d].Some? && (c[d] == Some(p) || AheadIn(c, p, d + 1))
  }

  /** A pointer that lies ahead is in a slot at or after `d`. */
  lemma {:induction false} AheadInSlot(c: Table, p: HashPointer, d: nat) returns (e: nat)
    requires AheadIn(c, p, d)
    ensures d <= e < |c| && c[e] == Some(p)
    decreases |c| - d
  {
    if c[d] == Some(p) {
      e := d;
    } else {
      e := AheadInSlot(c, p, d + 1);
    }
  }

  /** A pointer in slot `e`, with every slot from `d` up to it taken, lies
      ahead of `d`. */
  lemma {:induction false} AheadInReach(c: Table, p: HashPointer, d: nat, e: nat)
    requires d <= e < |c| && c[e] == Some(p)
    requires forall j :: d <= j < e ==> c[j].Some?
    ensures AheadIn(c, p, d)
    decreases e - d
  {
    if d < e {
      AheadInReach(c, p, d + 1, e);
    }
  }

  /** The data of the records among the first `n` that are stored under
      `key` and whose pointers, `ps`, lie ahead of slot `d` of the chain. */
  ghost function Remaining(rs: seq<Element>, key: seq<Byte>, ps: seq<HashPointer>, c: Table, d: nat, n: nat): multiset<seq<Byte>>
    requires n <= |rs| == |ps|
  {
    if n == 0 then multiset{} else Remaining(rs, key, ps, c, d, n - 1) + AheadData(rs, key, ps, c, d, n - 1)
  }

  /** The data of record `i` when it is stored under `key` and its pointer
      lies ahead of slot `d`. */
  ghost function AheadData(rs: seq<Element>, key: seq<Byte>, ps: seq<HashPointer>, c: Table, d: nat, i: nat): multiset<seq<Byte>>
    requires i < |rs| == |ps|
  {
    if rs[i].key == key && AheadIn(c, ps[i], d) then multiset{rs[i].data} else multiset{}
  }

  /** Slot `d` of the chain is the slot `d` steps from the home slot. */
  lemma ChainFromHome(rs: seq<Element>, key: seq<Byte>, d: int)
    requires 0 <= d < 2 * Count(Pointers(rs), Bucket(Hash(key)))
    ensures var len := 2 * Count(Pointers(rs), Bucket(Hash(key)));
      Chain(rs, key)[d] == BucketTable(Pointers(rs), Bucket(Hash(key)))[Step(Home(Hash(key), len), d, len)]
  {
    var t := BucketTable(Pointers(rs), Bucket(Hash(key)));
    var w := Home(Hash(key), |t|);
    var c := t[w..] + t[..w];
    assert Chain(rs, key) == c;
    if w + d < |t| {
      assert c[d] == t[w..][d];
    } else {
      assert c[d] == t[..w][d - (|t| - w)];
    }
  }

  /** The chain holds the slots of the bucket's table. */
  lemma ChainMultiset(rs: seq<Element>, key: seq<Byte>)
    ensures multiset(Chain(rs, key)) == multiset(BucketTable(Pointers(rs), Bucket(Hash(key))))
  {
    var t := BucketTable(Pointers(rs), Bucket(Hash(key)));
    if |t| > 0 {
      var w := Home(Hash(key), |t|);
      assert t == t[..w] + t[w..];
    }
  }

  /** Every pointer collected so far points before the end of the records. */
  lemma {:induction false} PointersBelow(rs: seq<Element>, q: HashPointer)
    ensures q in Pointers(rs) ==> q.pos < HEADER_SIZE + RecordsSize(rs)
    decreases |rs|
  {
    if rs != [] {
      var init := rs[..|rs| - 1];
      var e := rs[|rs| - 1];
      assert rs == init + [e];
      PointersSnoc(init, e, false);
      RecordsSnoc(init, e);
      PointersBelow(init, q);
    }
  }

  /** No pointer is in a bucket twice: every record has a position of its own. */
  lemma {:induction false} InBucketOnce(rs: seq<Element>, b: int, q: HashPointer)
    ensures multiset(InBucket(Pointers(rs), b))[q] <= 1
    decreases |rs|
  {
    if rs != [] {
      var init := rs[..|rs| - 1];
      var e := rs[|rs| - 1];
      assert rs == init + [e];
      PointersSnoc(init, e, false);
      var last := HashPointer(Hash(e.key), HEADER_SIZE + RecordsSize(init));
      InBucketSnoc(Pointers(init), last, b);
      InBucketOnce(init, b, q);
      if q == last {
        PointersBelow(init, q);
        InBucketMembers(Pointers(init), b, q);
      }
    }
  }

  /** A slot value held by two slots of a table is in it twice. */
  lemma TwiceInTable(t: Table, u: nat, v: nat)
    requires u < v < |t| && t[u] == t[v]
    ensures multiset(t)[t[u]] >= 2
  {
    assert t == t[..u] + [t[u]] + t[u + 1..v] + [t[v]] + t[v + 1..];
  }

  /** The pointer of a record is in the chain of its key at most once. */
  lemma ChainOnce(rs: seq<Element>, key: seq<Byte>, q: HashPointer)
    ensures multiset(Chain(rs, key))[Some(q)] <= 1
  {
    ChainMultiset(rs, key);
    BucketTableProperties(Pointers(rs), Bucket(Hash(key)));
    InBucketOnce(rs, Bucket(Hash(key)), q);
  }

  /** Nothing lies ahead of the end of a chain or of a free slot. */
  lemma NothingAheadIn(c: Table, p: HashPointer, d: nat)
    requires d >= |c| || c[d].None?
    ensures !AheadIn(c, p, d)
  {
  }

  /** A pointer in slot `d`, and nowhere else, lies ahead of `d` and not of `d + 1`. */
  lemma AheadInHere(c: Table, p: HashPointer, d: nat)
    requires d < |c| && c[d] == Some(p) && multiset(c)[Some(p)] <= 1
    ensures AheadIn(c, p, d) && !AheadIn(c, p, d + 1)
  {
    if AheadIn(c, p, d + 1) {
      var e := AheadInSlot(c, p, d + 1);
      TwiceInTable(c, d, e);
    }
  }

  /** Past a taken slot that holds another pointer, the same pointers lie ahead. */
  lemma AheadInPast(c: Table, p: HashPointer, d: nat)
    requires d < |c| && c[d].Some? && c[d] != Some(p)
    ensures AheadIn(c, p, d) == AheadIn(c, p, d + 1)
  {
  }

  /** Nothing lies ahead of the end of the chain or of a free slot. */
  lemma {:induction false} NothingAhead(rs: seq<Element>, key: seq<Byte>, ps: seq<HashPointer>, c: Table, d: nat, n: nat)
    requires n <= |rs| == |ps|
    requires d >= |c| || c[d].None?
    ensures Remaining(rs, key, ps, c, d, n) == multiset{}
    decreases n
  {
    if n > 0 {
      NothingAhead(rs, key, ps, c, d, n - 1);
      NothingAheadIn(c, ps[n - 1], d);
    }
  }

  /** The record a taken slot points at lies ahead of that slot only. */
  lemma AheadDataHere(rs: seq<Element>, key: seq<Byte>, ps: seq<HashPointer>, c: Table, d: nat, k: nat)
    requires k < |rs| == |ps| && d < |c|
    requires c[d] == Some(ps[k]) && multiset(c)[Some(ps[k])] <= 1
    ensures AheadData(rs, key, ps, c, d, k) == Contributed(rs, key, k) && AheadData(rs, key, ps, c, d + 1, k) == multiset{}
  {
    AheadInHere(c, ps[k], d);
  }

  /** Another record lies ahead of a taken slot exactly when it lies ahead of the next. */
  lemma AheadDataPast(rs: seq<Element>, key: seq<Byte>, ps: seq<HashPointer>, c: Table, d: nat, i: nat, k: nat)
    requires i < |rs| == |ps| && k < |rs| && d < |c|
    requires c[d] == Some(ps[k]) && ps[i] != ps[k]
    ensures AheadData(rs, key, ps, c, d, i) == AheadData(rs, key, ps, c, d + 1, i)
  {
    AheadInPast(c, ps[i], d);
  }

  /** Past a taken slot the same records lie ahead, less the one the slot
      points at when it is stored under the key. */
  lemma {:induction false} RemainingStep(rs: seq<Element>, key: seq<Byte>, ps: seq<HashPointer>, c: Table, d: nat, n: nat, k: nat)
    requires n <= |rs| == |ps| && k < |rs| && d < |c|
    requires c[d] == Some(ps[k]) && multiset(c)[Some(ps[k])] <= 1
    requires forall i :: 0 <= i < |ps| && i != k ==> ps[i] != ps[k]
    ensures Remaining(rs, key, ps, c, d, n) == Remaining(rs, key, ps, c, d + 1, n) + ContributedBelow(rs, key, k, n)
    decreases n
  {
    if n > 0 {
      RemainingStep(rs, key, ps, c, d, n - 1, k);
      if n - 1 == k {
        RemainingAtSlot(rs, key, ps, c, d, n, k);
      } else {
        RemainingPastSlot(rs, key, ps, c, d, n, k);
      }
    }
  }

  /** Adding the record a taken slot points at: it lies ahead of that slot
      and of no later one. */
  lemma RemainingAtSlot(rs: seq<Element>, key: seq<Byte>, ps: seq<HashPointer>, c: Table, d: nat, n: nat, k: nat)
    requires 0 < n <= |rs| == |ps| && k == n - 1 && d < |c|
    requires c[d] == Some(ps[k]) && multiset(c)[Some(ps[k])] <= 1
    requires Remaining(rs, key, ps, c, d, n - 1) == Remaining(rs, key, ps, c, d + 1, n - 1) + ContributedBelow(rs, key, k, n - 1)
    ensures Remaining(rs, key, ps, c, d, n) == Remaining(rs, key, ps, c, d + 1, n) + ContributedBelow(rs, key, k, n)
  {
    AheadDataHere(rs, key, ps, c, d, k);
    assert ContributedBelow(rs, key, k, n - 1) == multiset{};
    UnionHere(Remaining(rs, key, ps, c, d, n), Remaining(rs, key, ps, c, d + 1, n),
      Remaining(rs, key, ps, c, d, n - 1), Remaining(rs, key, ps, c, d + 1, n - 1), AheadData(rs, key, ps, c, d, k), AheadData(rs, key, ps, c, d + 1, k));
  }

  /** Adding another record: it lies ahead of the taken slot exactly when it
      lies ahead of the next one. */
  lemma RemainingPastSlot(rs: seq<Element>, key: seq<Byte>, ps: seq<HashPointer>, c: Table, d: nat, n: nat, k: nat)
    requires 0 < n <= |rs| == |ps| && k < |rs| && d < |c| && n - 1 != k
    requires c[d] == Some(ps[k]) && ps[n - 1] != ps[k]
    requires Remaining(rs, key, ps, c, d, n - 1) == Remaining(rs, key, ps, c, d + 1, n - 1) + ContributedBelow(rs, key, k, n - 1)
    ensures Remaining(rs, key, ps, c, d, n) == Remaining(rs, key, ps, c, d + 1, n) + ContributedBelow(rs, key, k, n)
  {
    AheadDataPast(rs, key, ps, c, d, n - 1, k);
    UnionShift(Remaining(rs, key, ps, c, d, n), Remaining(rs, key, ps, c, d + 1, n),
      Remaining(rs, key, ps, c, d, n - 1), Remaining(rs, key, ps, c, d + 1, n - 1), ContributedBelow(rs, key, k, n - 1),
      AheadData(rs, key, ps, c, d, n - 1), AheadData(rs, key, ps, c, d + 1, n - 1), ContributedBelow(rs, key, k, n));
  }

  /** Adding `h` to one side and nothing to the other of two equal multisets. */
  lemma UnionHere<T>(sum: multiset<T>, sum': multiset<T>, a: multiset<T>, b: multiset<T>, h: multiset<T>, h': multiset<T>)
    requires sum == a + h && sum' == b + h' && a == b + multiset{} && h' == multiset{}
    ensures sum == sum' + h
  {
  }

  /** Two unions whose parts differ by the same amount differ by it too. */
  lemma UnionShift<T>(sum: multiset<T>, sum': multiset<T>, a: multiset<T>, b: multiset<T>, x: multiset<T>, h: multiset<T>, h': multiset<T>, y: multiset<T>)
    requires sum == a + h && sum' == b + h' && a == b + x && h + x == h' + y
    ensures sum == sum' + y
  {
    calc {
      sum;
      b + (h + x);
      b + (h' + y);
      sum' + y;
    }
  }

  /** The records among the first `n` all lying ahead of the home slot,
      those stored under the key are the ones ahead. */
  lemma {:induction false} RemainingAllIn(rs: seq<Element>, key: seq<Byte>, ps: seq<HashPointer>, c: Table, n: nat)
    requires n <= |rs| == |ps|
    requires forall i :: 0 <= i < n && rs[i].key == key ==> AheadIn(c, ps[i], 0)
    ensures Remaining(rs, key, ps, c, 0, n) == multiset(DataUnder(rs[..n], key))
    decreases n
  {
    if n > 0 {
      RemainingAllIn(rs, key, ps, c, n - 1);
      assert rs[..n][..n - 1] == rs[..n - 1];
    }
  }

  /** A record stored under the key lies ahead of the home slot. */
  lemma AheadOfHome(rs: seq<Element>, key: seq<Byte>, i: nat)
    requires Fits(rs) && i < |rs| && rs[i].key == key
    ensures AheadIn(Chain(rs, key), Pointers(rs)[i], 0)
  {
    PointersWithAt(rs, false, i);
    var d := RecordOnChain(rs, key, i);
    var c := Chain(rs, key);
    ChainFromHome(rs, key, d);
    forall j | 0 <= j < d
      ensures c[j].Some?
    {
      ChainFromHome(rs, key, j);
    }
    AheadInReach(c, HashPointer(Hash(key), RecordPos(rs, i)), 0, d);
  }

  /** Every record stored under the key lies ahead of the home slot. */
  lemma RemainingAll(rs: seq<Element>, key: seq<Byte>)
    requires Fits(rs)
    ensures Remaining(rs, key, Pointers(rs), Chain(rs, key), 0, |rs|) == multiset(DataUnder(rs, key))
  {
    forall i | 0 <= i < |rs| && rs[i].key == key
      ensures AheadIn(Chain(rs, key), Pointers(rs)[i], 0)
    {
      AheadOfHome(rs, key, i);
    }
    RemainingAllIn(rs, key, Pointers(rs), Chain(rs, key), |rs|);
    assert rs[..|rs|] == rs;
  }

  /** A search on the chain walks it, on the first call as on later ones. */
  lemma ChainFindNext(rs: seq<Element>, key: seq<Byte>, s: Search)
    requires Fits(rs) && OnChain(rs, key, s)
    ensures FindNextOn(rs, key, s) == Walk(Image(rs), key, s)
  {
    if s.loop == 0 {
      var table := LocatedOnChain(rs, key);
      assert Located(table, key) == s;
    }
  }

  /** Two states in which `findnext` does the same lead to the same calls. */
  lemma FoundAllSame(rs: seq<Element>, key: seq<Byte>, s: Search, t: Search)
    requires Fits(rs) && Resumable(rs, key, s) && Resumable(rs, key, t) && FindNextOn(rs, key, s) == FindNextOn(rs, key, t)
    ensures FoundAll(rs, key, s) == FoundAll(rs, key, t)
  {
  }

  /** A call that returns data is followed by the calls from where it stopped. */
  lemma FoundAllHit(rs: seq<Element>, key: seq<Byte>, s: Search, data: seq<Byte>, next: Search)
    requires Fits(rs) && Resumable(rs, key, s) && FindNextOn(rs, key, s) == (Hit(data), next)
    ensures Resumable(rs, key, next) && FoundAll(rs, key, s) == [data] + FoundAll(rs, key, next)
  {
    FindNextSound(rs, key, s);
  }

  /** A call that returns `null` ends the calls. */
  lemma FoundAllMiss(rs: seq<Element>, key: seq<Byte>, s: Search)
    requires Fits(rs) && Resumable(rs, key, s) && FindNextOn(rs, key, s).0 == Miss
    ensures FoundAll(rs, key, s) == []
  {
  }

  /** From a state on the chain at a taken slot, the calls go on as from the
      next slot, after returning the data of the record the slot points at
      when it is stored under the key. */
  lemma FoundAtTaken(rs: seq<Element>, key: seq<Byte>, s: Search) returns (k: nat)
    requires Fits(rs) && OnChain(rs, key, s) && s.loop < s.hslots && ChainSlot(rs, key, s).Some?
    ensures k < |rs| && OnChain(rs, key, Advanced(s)) && s.loop < |Chain(rs, key)|
    ensures Chain(rs, key)[s.loop] == Some(HashPointer(Hash(rs[k].key), RecordPos(rs, k)))
    ensures Advanced(s).loop == s.loop + 1
    ensures multiset(FoundAll(rs, key, s)) == multiset(FoundAll(rs, key, Advanced(s))) + Contributed(rs, key, k)
  {
    k := WalkAtTaken(rs, key, s);
    ChainFromHome(rs, key, s.loop);
    var next := Advanced(s);
    AdvancedOnChain(rs, key, s);
    ChainFindNext(rs, key, s);
    ChainFindNext(rs, key, next);
    if rs[k].key == key {
      FoundAllHit(rs, key, s, rs[k].data, next);
    } else {
      FoundAllSame(rs, key, s, next);
      assert [] + FoundAll(rs, key, next) == FoundAll(rs, key, next);
    }
    FoundAtTakenMultiset(rs, key, k, FoundAll(rs, key, s), FoundAll(rs, key, next));
  }

  /** At the end of the chain or at a free slot the calls end. */
  lemma FoundAllStops(rs: seq<Element>, key: seq<Byte>, s: Search)
    requires Fits(rs) && OnChain(rs, key, s) && (s.loop >= s.hslots || ChainSlot(rs, key, s).None?)
    ensures FoundAll(rs, key, s) == []
    ensures s.loop >= |Chain(rs, key)| || Chain(rs, key)[s.loop].None?
  {
    ChainFindNext(rs, key, s);
    if s.loop >= s.hslots {
      WalkStops(Image(rs), key, s);
    } else {
      WalkAtFree(rs, key, s);
      ChainFromHome(rs, key, s.loop);
    }
    FoundAllMiss(rs, key, s);
  }

  /** The data a taken slot of the chain contributes: that of the record it
      points at, when that record is stored under the key. */
  ghost function Contributed(rs: seq<Element>, key: seq<Byte>, k: nat): multiset<seq<Byte>>
    requires k < |rs|
  {
    if rs[k].key == key then multiset{rs[k].data} else multiset{}
  }

  /** What record `k` contributes when it is among the first `n`. */
  ghost function ContributedBelow(rs: seq<Element>, key: seq<Byte>, k: nat, n: nat): multiset<seq<Byte>>
    requires k < |rs|
  {
    if k < n then Contributed(rs, key, k) else multiset{}
  }

  /** Past a taken slot of the chain, the records ahead lose what the slot contributes. */
  lemma RemainingAtTaken(rs: seq<Element>, key: seq<Byte>, d: nat, k: nat)
    requires k < |rs| && d < |Chain(rs, key)| && Chain(rs, key)[d] == Some(HashPointer(Hash(rs[k].key), RecordPos(rs, k)))
    ensures Remaining(rs, key, Pointers(rs), Chain(rs, key), d, |rs|) == Remaining(rs, key, Pointers(rs), Chain(rs, key), d + 1, |rs|) + Contributed(rs, key, k)
  {
    var ps := Pointers(rs);
    PointersWithAt(rs, false, k);
    ChainOnce(rs, key, ps[k]);
    forall i | 0 <= i < |ps| && i != k
      ensures ps[i] != ps[k]
    {
      PointersWithAt(rs, false, i);
      if RecordPos(rs, i) == RecordPos(rs, k) {
        RecordPosInjective(rs, i, k);
      }
    }
    RemainingStep(rs, key, ps, Chain(rs, key), d, |rs|, k);
  }

  /** The calls at a taken slot, counted as a multiset. */
  lemma FoundAtTakenMultiset(rs: seq<Element>, key: seq<Byte>, k: nat, found: seq<seq<Byte>>, ahead: seq<seq<Byte>>)
    requires k < |rs| && found == (if rs[k].key == key then [rs[k].data] else []) + ahead
    ensures multiset(found) == multiset(ahead) + Contributed(rs, key, k)
  {
    var mine := if rs[k].key == key then [rs[k].data] else [];
    assert multiset(mine) == Contributed(rs, key, k);
    UnionSwap(multiset(mine), multiset(ahead));
  }

  /** The union of two multisets does not depend on their order. */
  lemma UnionSwap<T>(a: multiset<T>, b: multiset<T>)
    ensures a + b == b + a
  {
  }

  /** The number of slots in the chain of `key`'s bucket. */
  ghost function ChainLen(rs: seq<Element>, key: seq<Byte>): nat
  {
    2 * Count(Pointers(rs), Bucket(Hash(key)))
  }

  /** The search for `key` on the file of `rs` that has examined `d` slots
      of its chain. */
  ghost function ChainState(rs: seq<Element>, key: seq<Byte>, d: int): (s: Search)
    requires Fits(rs) && 0 < ChainLen(rs, key) && 0 <= d <= ChainLen(rs, key)
    ensures OnChain(rs, key, s) && s.loop == d
  {
    var len := ChainLen(rs, key);
    var hpos := TablePos(Pointers(rs), Eod(rs), Bucket(Hash(key)));
    ChainWithin(rs, Bucket(Hash(key)));
    Search(d, Wrap32(Hash(key)), len, hpos, hpos + 8 * Step(Home(Hash(key), len), d, len))
  }

  /** A search on the chain is the chain state of its `loop`. */
  lemma ChainStateOf(rs: seq<Element>, key: seq<Byte>, s: Search)
    requires Fits(rs) && OnChain(rs, key, s)
    ensures s == ChainState(rs, key, s.loop)
  {
  }

  /** Examining a slot moves a chain state to the next one. */
  lemma ChainStateNext(rs: seq<Element>, key: seq<Byte>, d: int)
    requires Fits(rs) && 0 <= d < ChainLen(rs, key)
    ensures Advanced(ChainState(rs, key, d)) == ChainState(rs, key, d + 1)
  {
    AdvancedOnChain(rs, key, ChainState(rs, key, d));
    ChainStateOf(rs, key, Advanced(ChainState(rs, key, d)));
  }

  /** From `d` slots into the chain, the calls return each data that lies
      ahead on the chain, as many times as it lies ahead. */
  lemma {:induction false} FoundAlong(rs: seq<Element>, key: seq<Byte>, d: nat)
    requires Fits(rs) && 0 < ChainLen(rs, key) && d <= ChainLen(rs, key)
    ensures multiset(FoundAll(rs, key, ChainState(rs, key, d))) == Remaining(rs, key, Pointers(rs), Chain(rs, key), d, |rs|)
    decreases ChainLen(rs, key) - d, 1
  {
    if d == ChainLen(rs, key) || Chain(rs, key)[d].None? {
      FoundAtEnd(rs, key, d);
    } else {
      FoundPast(rs, key, d);
    }
  }

  /** `FoundAlong` at a taken slot: the calls and what lies ahead both drop
      the record the slot points at when the search moves to the next slot. */
  lemma {:induction false} FoundPast(rs: seq<Element>, key: seq<Byte>, d: nat)
    requires Fits(rs) && d < ChainLen(rs, key) && Chain(rs, key)[d].Some?
    ensures multiset(FoundAll(rs, key, ChainState(rs, key, d))) == Remaining(rs, key, Pointers(rs), Chain(rs, key), d, |rs|)
    decreases ChainLen(rs, key) - d, 0
  {
    FoundAlong(rs, key, d + 1);
    ChainFromHome(rs, key, d);
    ChainStateNext(rs, key, d);
    var k := FoundAtTaken(rs, key, ChainState(rs, key, d));
    RemainingAtTaken(rs, key, d, k);
  }

  /** At the end of the chain or at a free slot, the calls end and nothing lies ahead. */
  lemma FoundAtEnd(rs: seq<Element>, key: seq<Byte>, d: nat)
    requires Fits(rs) && 0 < ChainLen(rs, key) && d <= ChainLen(rs, key)
    requires d == ChainLen(rs, key) || Chain(rs, key)[d].None?
    ensures multiset(FoundAll(rs, key, ChainState(rs, key, d))) == Remaining(rs, key, Pointers(rs), Chain(rs, key), d, |rs|)
  {
    if d < ChainLen(rs, key) {
      ChainFromHome(rs, key, d);
    }
    FoundAllStops(rs, key, ChainState(rs, key, d));
    NothingAhead(rs, key, Pointers(rs), Chain(rs, key), d, |rs|);
  }

  /** On a file the builder made, the calls of a search from its first
      `findnext` up to the first `null` return the data of every record
      stored under the key, each once: a key added several times yields
      each of its data. */
  lemma FindsEach(rs: seq<Element>, key: seq<Byte>, s: Search)
    requires Fits(rs) && s.loop == 0
    ensures multiset(FoundAll(rs, key, s)) == multiset(DataUnder(rs, key))
  {
    RemainingAll(rs, key);
    if ChainLen(rs, key) == 0 {
      FoundNowhere(rs, key, s);
    } else {
      FoundFromHome(rs, key, s);
    }
  }

  /** When the key's bucket is empty, the first call returns `null` and
      nothing lies ahead on the (empty) chain. */
  lemma FoundNowhere(rs: seq<Element>, key: seq<Byte>, s: Search)
    requires Fits(rs) && s.loop == 0 && ChainLen(rs, key) == 0
    ensures multiset(FoundAll(rs, key, s)) == Remaining(rs, key, Pointers(rs), Chain(rs, key), 0, |rs|)
  {
    FirstMiss(rs, key, s);
    NothingAhead(rs, key, Pointers(rs), Chain(rs, key), 0, |rs|);
  }

  /** When the key's bucket is empty, the first call returns `null`. */
  lemma FirstMiss(rs: seq<Element>, key: seq<Byte>, s: Search)
    requires Fits(rs) && s.loop == 0 && ChainLen(rs, key) == 0
    ensures FindNextOn(rs, key, s).0 == Miss
  {
    LocatedNowhere(rs, key);
  }

  /** When the key's bucket is not empty, the first call starts the search
      at the home slot of its chain. */
  lemma FoundFromHome(rs: seq<Element>, key: seq<Byte>, s: Search)
    requires Fits(rs) && s.loop == 0 && 0 < ChainLen(rs, key)
    ensures multiset(FoundAll(rs, key, s)) == Remaining(rs, key, Pointers(rs), Chain(rs, key), 0, |rs|)
  {
    var table := LocatedOnChain(rs, key);
    var start := Located(table, key);
    ChainFindNext(rs, key, start);
    ChainStateOf(rs, key, start);
    FoundAlong(rs, key, 0);
    assert FoundAll(rs, key, s) == FoundAll(rs, key, start);
  }

  /** The two-slot table of a bucket that holds only record `i`'s pointer:
      that pointer in the home slot of its key, the other slot free. */
  lemma LoneSlots(rs: seq<Element>, key: seq<Byte>, i: nat)
    requires i < |rs| && rs[i].key == key && Count(Pointers(rs), Bucket(Hash(key))) == 1
    ensures BucketTable(Pointers(rs), Bucket(Hash(key)))[Home(Hash(key), 2)] == Some(HashPointer(Hash(key), RecordPos(rs, i)))
    ensures BucketTable(Pointers(rs), Bucket(Hash(key)))[1 - Home(Hash(key), 2)] == None
  {
    var ps := Pointers(rs);
    var b := Bucket(Hash(key));
    var q := HashPointer(Hash(key), RecordPos(rs, i));
    PointersWithAt(rs, false, i);
    InBucketMembers(ps, b, q);
    var p := LoneTable(ps, b);
    assert p == q;
  }

  /** After the pointer in the home slot of a lone key, the walk meets the
      free slot and ends with `null`. */
  lemma LoneSecondWalk(rs: seq<Element>, key: seq<Byte>, i: nat, start: Search)
    requires Fits(rs) && i < |rs| && rs[i].key == key && Count(Pointers(rs), Bucket(Hash(key))) == 1
    requires OnChain(rs, key, start) && start.loop == 0
    ensures Walk(Image(rs), key, Advanced(start)).0 == Miss
  {
    LoneSlots(rs, key, i);
    var next := Advanced(start);
    AdvancedOnChain(rs, key, start);
    assert next.hslots == 2 && next.loop == 1;
    assert Step(Home(Hash(key), 2), 1, 2) == 1 - Home(Hash(key), 2);
    WalkAtFree(rs, key, next);
  }

  /** A key whose bucket holds no other pointer and that was added once:
      the first `findnext` returns its data and the next one `null`, since
      the only other slot of the two-slot table is free. */
  lemma LoneKeyFoundOnce(rs: seq<Element>, key: seq<Byte>, i: nat, s: Search)
    requires Fits(rs) && i < |rs| && rs[i].key == key && s.loop == 0
    requires Count(Pointers(rs), Bucket(Hash(key))) == 1
    ensures FindNextOn(rs, key, s).0 == Hit(rs[i].data)
    ensures FindNextOn(rs, key, FindNextOn(rs, key, s).1).0 == Miss
  {
    LoneSlots(rs, key, i);
    var table := LocatedOnChain(rs, key);
    var start := Located(table, key);
    assert FindNextOn(rs, key, s) == Walk(Image(rs), key, start);
    var k := WalkAtTaken(rs, key, start);
    RecordPosInjective(rs, i, k);
    var next := Advanced(start);
    assert FindNextOn(rs, key, s) == (Hit(rs[i].data), next);
    LoneSecondWalk(rs, key, i, start);
    assert FindNextOn(rs, key, next) == Walk(Image(rs), key, next);
  }
}
