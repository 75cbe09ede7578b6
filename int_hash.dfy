/** The older port's builder keeps each hash as a signed `int`. Its pointers
    hold the same 32 bits as the library builder's `long` hashes, and every
    use `finish` makes of a hash (`hash & 0xff`, `(hash >>> 8) % len`,
    `writeLeInt(hash)`) depends only on those bits, so both builders write
    the same file. */
module IntHash {
  import opened Bytes
  import opened CdbFormat
  import opened ProbeTable
  import opened CdbLayout
  import opened LookupCorrect

  /** A pointer with its hash read as a signed `int`. */
  function Signed(p: HashPointer): HashPointer
  {
    HashPointer(Wrap32(p.hash), p.pos)
  }

  /** Every pointer of `ps` with its hash read as a signed `int`. */
  function SignedAll(ps: seq<HashPointer>): (r: seq<HashPointer>)
    ensures |r| == |ps|
  {
    if ps == [] then [] else SignedAll(ps[..|ps| - 1]) + [Signed(ps[|ps| - 1])]
  }

  /** A table whose taken slots hold their pointers with signed hashes. */
  function SignedSlots(t: Table): (r: Table)
    ensures |r| == |t|
  {
    seq(|t|, i requires 0 <= i < |t| => if t[i].Some? then Some(Signed(t[i].value)) else None)
  }

  /** The same 32 bits: `x & 0xffffffffL` is unchanged by the cast to `int`. */
  lemma UnsignedOfWrap(x: int)
    ensures Unsigned(Wrap32(x)) == Unsigned(x)
  {
    var k := (Wrap32(x) - x) / TWO_32;
    assert Wrap32(x) == x + k * TWO_32;
  }

  /** Pointer `k` of the `int`-hash builder is pointer `k` of the library
      builder with its hash cast to `int`. */
  lemma {:induction false} IntPointersSigned(rs: seq<Element>)
    ensures IntPointers(rs) == SignedAll(Pointers(rs))
    decreases |rs|
  {
    if rs != [] {
      IntPointersSigned(rs[..|rs| - 1]);
    }
  }

  /** Dropping the last pointer commutes with the cast. */
  lemma SignedAllInit(ps: seq<HashPointer>)
    requires ps != []
    ensures SignedAll(ps)[..|ps| - 1] == SignedAll(ps[..|ps| - 1])
  {
  }

  /** Appending a pointer commutes with the cast. */
  lemma SignedAllSnoc(ps: seq<HashPointer>, p: HashPointer)
    ensures SignedAll(ps + [p]) == SignedAll(ps) + [Signed(p)]
  {
    assert (ps + [p])[..|ps|] == ps;
  }

  /** The cast keeps every pointer in its bucket (`hash & 0xff`). */
  lemma {:induction false} InBucketSigned(ps: seq<HashPointer>, b: int)
    ensures InBucket(SignedAll(ps), b) == SignedAll(InBucket(ps, b))
    decreases |ps|
  {
    if ps != [] {
      var init := ps[..|ps| - 1];
      var p := ps[|ps| - 1];
      assert ps == init + [p];
      InBucketSigned(init, b);
      SignedAllSnoc(init, p);
      InBucketSnoc(SignedAll(init), Signed(p), b);
      InBucketSnoc(init, p, b);
      BucketOfWrap(p.hash);
      if Bucket(p.hash) == b {
        SignedAllSnoc(InBucket(init, b), p);
      } else {
        assert InBucket(ps, b) == InBucket(init, b);
      }
    }
  }

  /** The cast keeps the number of pointers in each bucket. */
  lemma CountSigned(ps: seq<HashPointer>, b: int)
    ensures Count(SignedAll(ps), b) == Count(ps, b)
  {
    InBucketSigned(ps, b);
  }

  /** The cast keeps the bucket starts. */
  lemma {:induction false} BeforeSigned(ps: seq<HashPointer>, b: nat)
    requires b <= BUCKETS
    ensures Before(SignedAll(ps), b) == Before(ps, b)
    decreases b
  {
    if b > 0 {
      BeforeSigned(ps, b - 1);
      CountSigned(ps, b - 1);
    }
  }

  /** The probe sees only which slots are free, which the cast keeps. */
  lemma {:induction false} ProbeStepsSigned(t: Table, w: int, fuel: nat)
    requires 0 <= w < |t|
    ensures ProbeSteps(SignedSlots(t), w, fuel) == ProbeSteps(t, w, fuel)
    decreases fuel
  {
    if fuel > 0 && t[w].Some? {
      ProbeStepsSigned(t, Next(w, |t|), fuel - 1);
    }
  }

  /** Inserting the cast pointer into the cast table gives the cast of the
      insertion: `(hash >>> 8) % len` is the same for both. */
  lemma InsertSigned(t: Table, p: HashPointer)
    requires |t| > 0
    ensures Insert(SignedSlots(t), Signed(p)) == SignedSlots(Insert(t, p))
  {
    UnsignedOfWrap(p.hash);
    assert Home(Wrap32(p.hash), |t|) == Home(p.hash, |t|);
    ProbeStepsSigned(t, Home(p.hash, |t|), |t|);
  }

  /** Placing cast pointers into a cast table gives the cast of the table. */
  lemma {:induction false} PlaceReversedSigned(t: Table, ps: seq<HashPointer>)
    requires |t| > 0 || ps == []
    ensures PlaceReversed(SignedSlots(t), SignedAll(ps)) == SignedSlots(PlaceReversed(t, ps))
    decreases |ps|
  {
    if ps != [] {
      var p := ps[|ps| - 1];
      InsertSigned(t, p);
      SignedAllInit(ps);
      PlaceReversedSigned(Insert(t, p), ps[..|ps| - 1]);
    }
  }

  /** The table of bucket `b` built from the cast pointers is the cast of
      the library builder's table. */
  lemma BucketTableSigned(ps: seq<HashPointer>, b: int)
    ensures BucketTable(SignedAll(ps), b) == SignedSlots(BucketTable(ps, b))
  {
    InBucketSigned(ps, b);
    var e := Empty(2 * Count(ps, b));
    assert SignedSlots(e) == e;
    PlaceReversedSigned(e, InBucket(ps, b));
  }

  /** `writeLeInt(hash)` writes the same four bytes for the cast hash. */
  lemma SlotBytesSigned(t: Table, i: nat)
    requires i < |t|
    ensures SlotBytes(SignedSlots(t)[i]) == SlotBytes(t[i])
  {
    if t[i].Some? {
      UnsignedOfWrap(t[i].value.hash);
      assert LeBytes(Wrap32(t[i].value.hash)) == LeBytes(t[i].value.hash);
    }
  }

  /** A cast table is written with the same bytes. */
  lemma {:induction false} TableBytesSigned(t: Table)
    ensures TableBytes(SignedSlots(t)) == TableBytes(t)
    decreases |t|
  {
    if t != [] {
      var n := |t| - 1;
      assert SignedSlots(t)[..n] == SignedSlots(t[..n]);
      TableBytesSigned(t[..n]);
      SlotBytesSigned(t, n);
    }
  }

  /** Table `b` of the file is written with the same bytes. */
  lemma TableOfBucketSigned(ps: seq<HashPointer>, b: nat)
    requires b < BUCKETS
    ensures TableBytes(Tables(SignedAll(ps))[b]) == TableBytes(Tables(ps)[b])
  {
    TablesAt(SignedAll(ps), b);
    TablesAt(ps, b);
    BucketTableSigned(ps, b);
    TableBytesSigned(BucketTable(ps, b));
  }

  /** Tables written with the same bytes, one by one, are written with
      the same bytes one after the other. */
  lemma {:induction false} TablesBytesSame(ts: seq<Table>, us: seq<Table>, n: nat)
    requires n <= |ts| && n <= |us|
    requires forall b :: 0 <= b < n ==> TableBytes(ts[b]) == TableBytes(us[b])
    ensures TablesBytes(ts, n) == TablesBytes(us, n)
    decreases n
  {
    if n > 0 {
      TablesBytesSame(ts, us, n - 1);
      assert TableBytes(ts[n - 1]) == TableBytes(us[n - 1]);
    }
  }

  /** All 256 tables are written with the same bytes. */
  lemma TablesBytesSigned(ps: seq<HashPointer>)
    ensures TablesBytes(Tables(SignedAll(ps)), BUCKETS) == TablesBytes(Tables(ps), BUCKETS)
  {
    forall b | 0 <= b < BUCKETS
      ensures TableBytes(Tables(SignedAll(ps))[b]) == TableBytes(Tables(ps)[b])
    {
      TableOfBucketSigned(ps, b);
    }
    TablesBytesSame(Tables(SignedAll(ps)), Tables(ps), BUCKETS);
  }

  /** Header entry `b` is the same: the cast keeps the table's position
      and length. */
  lemma HeaderEntrySigned(ps: seq<HashPointer>, eod: int, b: nat)
    requires b < BUCKETS
    ensures HeaderEntry(SignedAll(ps), eod, b) == HeaderEntry(ps, eod, b)
  {
    BeforeSigned(ps, b);
    CountSigned(ps, b);
    assert TablePos(SignedAll(ps), eod, b) == TablePos(ps, eod, b);
  }

  /** Header entries that are the same one by one make the same header. */
  lemma {:induction false} HeaderBytesSame(ps: seq<HashPointer>, qs: seq<HashPointer>, eod: int, n: nat)
    requires n <= BUCKETS
    requires forall b :: 0 <= b < n ==> HeaderEntry(ps, eod, b) == HeaderEntry(qs, eod, b)
    ensures HeaderBytes(ps, eod, n) == HeaderBytes(qs, eod, n)
    decreases n
  {
    if n > 0 {
      HeaderBytesSame(ps, qs, eod, n - 1);
      assert HeaderEntry(ps, eod, n - 1) == HeaderEntry(qs, eod, n - 1);
    }
  }

  /** The first `n` header entries are the same. */
  lemma HeaderBytesSigned(ps: seq<HashPointer>, eod: int, n: nat)
    requires n <= BUCKETS
    ensures HeaderBytes(SignedAll(ps), eod, n) == HeaderBytes(ps, eod, n)
  {
    forall b | 0 <= b < n
      ensures HeaderEntry(SignedAll(ps), eod, b) == HeaderEntry(ps, eod, b)
    {
      HeaderEntrySigned(ps, eod, b);
    }
    HeaderBytesSame(SignedAll(ps), ps, eod, n);
  }

  /** The older port's builder, which keeps hashes as `int`s, writes the
      same file as the library builder. */
  lemma IntHashImage(rs: seq<Element>)
    ensures Layout(RecordsBytes(rs), IntPointers(rs)) == Image(rs)
  {
    var ps := Pointers(rs);
    IntPointersSigned(rs);
    HeaderBytesSigned(ps, HEADER_SIZE + |RecordsBytes(rs)|, BUCKETS);
    TablesBytesSigned(ps);
  }

  /** Whichever hash the builder keeps, `finish` writes the file of the
      records added. */
  lemma BuildersAgree(rs: seq<Element>, intHash: bool)
    ensures Layout(RecordsBytes(rs), PointersWith(rs, intHash)) == Image(rs)
  {
    if intHash {
      IntHashImage(rs);
    }
  }
}
