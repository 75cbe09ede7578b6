/** The record region of a cdb file and the hash pointers the builder collects
    while writing it: records, their positions, and the grouping of pointers into
    the 256 buckets selected by the low byte of the hash. */
module CdbFormat {
  import opened Bytes
  import opened CdbHash
  import opened Seqs

  datatype Option<T> = None | Some(value: T)

  /** A key and its data. */
  datatype Element = Element(key: seq<Byte>, data: seq<Byte>)

  /** A `CdbHashPointer`: the hash of a record's key and the record's position. */
  datatype HashPointer = HashPointer(hash: int, pos: int)

  /** Size of the header: 256 pairs of 4-byte little-endian integers. */
  const HEADER_SIZE: int := 2048
  const BUCKETS: int := 256

  /** The bytes `add` writes for one record: key length, data length, key, data. */
  function RecordBytes(e: Element): (r: seq<Byte>)
    ensures |r| == 8 + |e.key| + |e.data|
    ensures r[..4] == LeBytes(|e.key|) && r[4..8] == LeBytes(|e.data|)
    ensures r[8..8 + |e.key|] == e.key && r[8 + |e.key|..] == e.data
  {
    LeBytes(|e.key|) + LeBytes(|e.data|) + e.key + e.data
  }

  /** The total size of the records: the sum of `8 + klen + dlen`. */
  function RecordsSize(rs: seq<Element>): (n: nat)
    ensures n >= 8 * |rs|
  {
    if rs == [] then 0 else RecordsSize(rs[..|rs| - 1]) + 8 + |rs[|rs| - 1].key| + |rs[|rs| - 1].data|
  }

  /** The record region: the records one after the other, in the order they were added. */
  function RecordsBytes(rs: seq<Element>): (r: seq<Byte>)
    ensures |r| == RecordsSize(rs)
  {
    if rs == [] then [] else RecordsBytes(rs[..|rs| - 1]) + RecordBytes(rs[|rs| - 1])
  }

  /** The position of record `k`: the header, then the records before it. */
  function RecordPos(rs: seq<Element>, k: nat): int
    requires k <= |rs|
  {
    HEADER_SIZE + RecordsSize(rs[..k])
  }

  /** The hash stored in a pointer: the unsigned 32-bit hash of the key, or,
      for the builder that keeps it in an `int`, the same 32 bits read as signed. */
  function PointerHash(key: seq<Byte>, signed: bool): int
  {
    if signed then Wrap32(Hash(key)) else Hash(key)
  }

  /** The hash pointers in the order `add` collects them. */
  function PointersWith(rs: seq<Element>, signed: bool): (ps: seq<HashPointer>)
    ensures |ps| == |rs|
  {
    if rs == [] then []
    else PointersWith(rs[..|rs| - 1], signed) + [HashPointer(PointerHash(rs[|rs| - 1].key, signed), RecordPos(rs, |rs| - 1))]
  }

  /** The pointers of the `long`-hash builder: the unsigned 32-bit hash. */
  function Pointers(rs: seq<Element>): seq<HashPointer>
  {
    PointersWith(rs, false)
  }

  /** The pointers of the `int`-hash builder: the same 32 bits, read as a signed `int`. */
  function IntPointers(rs: seq<Element>): seq<HashPointer>
  {
    PointersWith(rs, true)
  }

  /** Pointer `k` holds the hash of record `k`'s key and record `k`'s position. */
  lemma {:induction false} PointersWithAt(rs: seq<Element>, signed: bool, k: nat)
    requires k < |rs|
    ensures PointersWith(rs, signed)[k] == HashPointer(PointerHash(rs[k].key, signed), RecordPos(rs, k))
    decreases |rs|
  {
    var init := rs[..|rs| - 1];
    if k < |rs| - 1 {
      PointersWithAt(init, signed, k);
      assert init[..k] == rs[..k];
    }
  }

  /** Appending a record appends one pointer and leaves the others alone. */
  lemma PointersSnoc(rs: seq<Element>, e: Element, signed: bool)
    ensures PointersWith(rs + [e], signed) == PointersWith(rs, signed) + [HashPointer(PointerHash(e.key, signed), HEADER_SIZE + RecordsSize(rs))]
  {
    assert (rs + [e])[..|rs|] == rs;
  }

  lemma RecordsSnoc(rs: seq<Element>, e: Element)
    ensures RecordsBytes(rs + [e]) == RecordsBytes(rs) + RecordBytes(e)
    ensures RecordsSize(rs + [e]) == RecordsSize(rs) + 8 + |e.key| + |e.data|
  {
    assert (rs + [e])[..|rs|] == rs;
  }

  /** The size of two runs of records is the sum of their sizes. */
  lemma {:induction false} RecordsSizeAppend(a: seq<Element>, b: seq<Element>)
    ensures RecordsSize(a + b) == RecordsSize(a) + RecordsSize(b)
    decreases |b|
  {
    if b != [] {
      var init := b[..|b| - 1];
      RecordsSizeAppend(a, init);
      assert (a + b)[..|a + b| - 1] == a + init;
    } else {
      assert a + b == a;
    }
  }

  /** Sizes of a prefix never exceed the size of the whole. */
  lemma {:induction false} RecordsSizePrefix(rs: seq<Element>, k: nat)
    requires k <= |rs|
    ensures RecordsSize(rs[..k]) + 8 + (if k < |rs| then |rs[k].key| + |rs[k].data| else 0) <= RecordsSize(rs) + (if k < |rs| then 0 else 8)
    decreases |rs|
  {
    if k < |rs| {
      var init := rs[..|rs| - 1];
      if k < |rs| - 1 {
        RecordsSizePrefix(init, k);
        assert init[..k] == rs[..k];
        assert init[k] == rs[k];
      } else {
        assert rs[..k] == init;
      }
    } else {
      assert rs[..k] == rs;
    }
  }

  /** Record `k`'s bytes are those of the record region from the size of the
      records before it on. */
  ghost predicate RecordStored(rs: seq<Element>, k: nat)
    requires k < |rs|
  {
    RecordsSize(rs[..k]) + 8 + |rs[k].key| + |rs[k].data| <= RecordsSize(rs) &&
    RecordsBytes(rs)[RecordsSize(rs[..k])..RecordsSize(rs[..k]) + 8 + |rs[k].key| + |rs[k].data|] == RecordBytes(rs[k])
  }

  /** Record `k` sits at `RecordPos(rs, k)` in a file that starts with the
      header and continues with the record region. */
  lemma {:induction false} RecordAt(rs: seq<Element>, k: nat)
    requires k < |rs|
    ensures RecordStored(rs, k)
    decreases |rs|
  {
    if k < |rs| - 1 {
      RecordAt(rs[..|rs| - 1], k);
      StoredBeforeLast(rs, k);
    } else {
      StoredLast(rs);
    }
  }

  /** A record before the last is where it was before the last was added. */
  lemma StoredBeforeLast(rs: seq<Element>, k: nat)
    requires k < |rs| - 1 && RecordStored(rs[..|rs| - 1], k)
    ensures RecordStored(rs, k)
  {
    var init := rs[..|rs| - 1];
    assert init[..k] == rs[..k];
    assert init[k] == rs[k];
    var a := RecordsSize(rs[..k]);
    var b := a + 8 + |rs[k].key| + |rs[k].data|;
    assert RecordsBytes(rs) == RecordsBytes(init) + RecordBytes(rs[|rs| - 1]);
    assert RecordsBytes(init)[a..b] == RecordBytes(rs[k]);
    SliceLeftIs(RecordsBytes(init), RecordBytes(rs[|rs| - 1]), a, b, RecordBytes(rs[k]));
  }

  /** The last record ends the record region. */
  lemma StoredLast(rs: seq<Element>)
    requires |rs| > 0
    ensures RecordStored(rs, |rs| - 1)
  {
    var k := |rs| - 1;
    var init := rs[..k];
    var a := RecordsSize(init);
    var b := a + 8 + |rs[k].key| + |rs[k].data|;
    assert RecordsBytes(rs) == RecordsBytes(init) + RecordBytes(rs[k]);
    SliceRightIs(RecordsBytes(init), RecordBytes(rs[k]), a, b);
  }

  /** The bucket of a hash: `hash & 0xff`, for a signed `int` as well as a `long`. */
  function Bucket(h: int): (b: int)
    ensures 0 <= b < BUCKETS
  {
    h % 256
  }

  /** The pointers of bucket `b`, in the order they were collected. */
  function InBucket(ps: seq<HashPointer>, b: int): (r: seq<HashPointer>)
    ensures |r| <= |ps|
  {
    if ps == [] then []
    else InBucket(ps[..|ps| - 1], b) + (if Bucket(ps[|ps| - 1].hash) == b then [ps[|ps| - 1]] else [])
  }

  /** `tableCount[b]`: how many pointers fall into bucket `b`. */
  function Count(ps: seq<HashPointer>, b: int): nat
  {
    |InBucket(ps, b)|
  }

  /** A bucket holds exactly the pointers whose hash selects it. */
  lemma {:induction false} InBucketMembers(ps: seq<HashPointer>, b: int, p: HashPointer)
    ensures p in InBucket(ps, b) <==> p in ps && Bucket(p.hash) == b
    decreases |ps|
  {
    if ps != [] {
      InBucketMembers(ps[..|ps| - 1], b, p);
      assert ps == ps[..|ps| - 1] + [ps[|ps| - 1]];
    }
  }

  /** The pointers of a bucket among the first `k` are the first pointers of
      that bucket. */
  lemma {:induction false} InBucketPrefix(ps: seq<HashPointer>, k: nat, b: int)
    requires k <= |ps|
    ensures Count(ps[..k], b) <= Count(ps, b)
    ensures InBucket(ps[..k], b) == InBucket(ps, b)[..Count(ps[..k], b)]
    decreases |ps|
  {
    if k < |ps| {
      var init := ps[..|ps| - 1];
      InBucketPrefix(init, k, b);
      assert init[..k] == ps[..k];
    } else {
      assert ps[..k] == ps;
    }
  }

  /** One pointer further along, a bucket gains that pointer if it selects the bucket. */
  lemma InBucketStep(ps: seq<HashPointer>, k: nat, b: int)
    requires k < |ps|
    ensures InBucket(ps[..k + 1], b) == InBucket(ps[..k], b) + (if Bucket(ps[k].hash) == b then [ps[k]] else [])
  {
    assert ps[..k + 1][..k] == ps[..k];
  }

  lemma InBucketSnoc(ps: seq<HashPointer>, p: HashPointer, b: int)
    ensures InBucket(ps + [p], b) == InBucket(ps, b) + (if Bucket(p.hash) == b then [p] else [])
  {
    assert (ps + [p])[..|ps|] == ps;
  }

  /** `tableStart` before distribution: the number of pointers in buckets below `b`. */
  function Before(ps: seq<HashPointer>, b: nat): nat
    requires b <= BUCKETS
  {
    if b == 0 then 0 else Before(ps, b - 1) + Count(ps, b - 1)
  }

  /** Adding a pointer moves the start of every later bucket by one. */
  lemma {:induction false} BeforeSnoc(ps: seq<HashPointer>, p: HashPointer, b: nat)
    requires b <= BUCKETS
    ensures Before(ps + [p], b) == Before(ps, b) + (if Bucket(p.hash) < b then 1 else 0)
  {
    if b > 0 {
      BeforeSnoc(ps, p, b - 1);
      InBucketSnoc(ps, p, b - 1);
    }
  }

  /** The buckets partition the pointers: their counts add up to the total. */
  lemma {:induction false} BeforeAll(ps: seq<HashPointer>)
    ensures Before(ps, BUCKETS) == |ps|
    decreases |ps|
  {
    if ps != [] {
      var init := ps[..|ps| - 1];
      BeforeAll(init);
      BeforeSnoc(init, ps[|ps| - 1], BUCKETS);
      assert init + [ps[|ps| - 1]] == ps;
    } else {
      BeforeEmpty(BUCKETS);
    }
  }

  lemma {:induction false} BeforeEmpty(b: nat)
    requires b <= BUCKETS
    ensures Before([], b) == 0
  {
    if b > 0 {
      BeforeEmpty(b - 1);
    }
  }

  /** The bucket slices are in order: bucket `b` ends where bucket `b + 1` starts. */
  lemma {:induction false} BeforeMono(ps: seq<HashPointer>, a: nat, b: nat)
    requires a <= b <= BUCKETS
    ensures Before(ps, a) <= Before(ps, b)
    ensures a < b ==> Before(ps, a) + Count(ps, a) <= Before(ps, b)
    decreases b - a
  {
    if a < b {
      BeforeMono(ps, a + 1, b);
    }
  }

}
