/** A file on which each departure of the library reader shows: two records,
    the empty key with data `[1]` and a key of 32 zero bytes with data `[2]`.
    Both keys fall into bucket 5; the table of bucket 5 has four slots, and
    both keys' home slot is slot 1. The builder places the pointer added
    last first, so the zero key takes slot 1 and the empty key slot 2.

    - the empty key's search reads slot 1 first: another hash and a
      position other than 0, so the stale buffer ends the call with `null`;
    - the zero key's hash is 3911903493, which has bit 31 set, so its
      search never matches.

    The reference reader, and the library reader as evidently intended,
    find both records. */
module LibraryCounterexamples {
  import opened Bytes
  import opened CdbHash
  import opened CdbFormat
  import opened ProbeTable
  import opened CdbLayout
  import opened CdbReader
  import opened LookupCorrect
  import opened LibraryReader
  import opened LibraryFindings
  import Buffers

  /** `33^n`. */
  function Pow33(n: nat): (r: nat)
  {
    if n == 0 then 1 else 33 * Pow33(n - 1)
  }

  lemma {:induction false} Pow33Add(a: nat, b: nat)
    ensures Pow33(a + b) == Pow33(a) * Pow33(b)
  {
    if b > 0 {
      Pow33Add(a, b - 1);
    }
  }

  /** Reducing a factor modulo 2^32 does not change the product modulo 2^32. */
  lemma UnsignedTimes(x: int, c: int)
    ensures Unsigned(Unsigned(x) * c) == Unsigned(x * c)
  {
    var r := Unsigned(x);
    var k := (x / TWO_32) * c;
    assert x * c == r * c + k * TWO_32;
    assert Unsigned(k * TWO_32) == 0;
    UnsignedAdd(r * c, k * TWO_32);
  }

  /** A zero byte multiplies the hash by 33, modulo 2^32. */
  lemma HashAddZero(h: int)
    ensures HashAdd(h, 0) == Unsigned(h * 33)
  {
    assert Unsigned(0) == 0;
  }

  /** Each zero byte multiplies the hash by 33: the hash of `n` zero bytes
      is `5381 * 33^n` modulo 2^32. */
  lemma {:induction false} HashOfZeros(n: nat)
    ensures Hash(Zeros(n)) == Unsigned(CDB_HASHSTART * Pow33(n))
  {
    if n > 0 {
      var x := CDB_HASHSTART * Pow33(n - 1);
      HashOfZeros(n - 1);
      assert Zeros(n) == Zeros(n - 1) + [0];
      HashSnoc(Zeros(n - 1), 0);
      HashAddZero(Unsigned(x));
      UnsignedTimes(x, 33);
      assert x * 33 == CDB_HASHSTART * Pow33(n);
    }
  }

  lemma Pow33Of32()
    ensures Pow33(32) == 3912425457204879631503516058626198046646581314561
  {
    assert Pow33(8) == 1406408618241;
    Pow33Add(8, 8);
    Pow33Add(16, 16);
  }

  /** The hash of 32 zero bytes. */
  lemma HashOfZeros32(n: nat)
    requires n == 32
    ensures Hash(Zeros(n)) == 3911903493
  {
    HashOfZeros(n);
    Pow33Of32();
    var x := CDB_HASHSTART * Pow33(n);
    assert x == 21052761385219457297120419911467571689005254053652741;
    DivModUnique(x, TWO_32, 4901727984011978213004865663002145404230163, 3911903493);
  }

  /** The two records, with `n` zero bytes in the second key. */
  function Records(n: nat): (rs: seq<Element>)
  {
    [Element([], [1]), Element(Zeros(n), [2])]
  }

  /** A file of two records: the first is stored at 2048, the second
      right after it. */
  lemma PairPointers(e0: Element, e1: Element)
    ensures RecordsSize([e0, e1]) == 16 + |e0.key| + |e0.data| + |e1.key| + |e1.data|
    ensures Pointers([e0, e1]) == [HashPointer(Hash(e0.key), HEADER_SIZE), HashPointer(Hash(e1.key), HEADER_SIZE + 8 + |e0.key| + |e0.data|)]
  {
    RecordsSnoc([], e0);
    RecordsSnoc([e0], e1);
    PointersSnoc([], e0, false);
    PointersSnoc([e0], e1, false);
    assert [] + [e0] == [e0] && [e0] + [e1] == [e0, e1];
  }

  /** The two records fit, and their pointers carry the keys' hashes and
      the positions 2048 and 2057. */
  lemma RecordsPointers(n: nat)
    requires n <= 32
    ensures Fits(Records(n))
    ensures Pointers(Records(n)) == [HashPointer(CDB_HASHSTART, 2048), HashPointer(Hash(Zeros(n)), 2057)]
  {
    PairPointers(Element([], [1]), Element(Zeros(n), [2]));
  }

  /** Two pointers of one bucket with the same home slot 1 of the bucket's
      4-slot table: the second is inserted first and takes slot 1. */
  lemma SharedHome(p0: HashPointer, p1: HashPointer, b: int)
    requires Bucket(p0.hash) == b && Bucket(p1.hash) == b
    requires Home(p0.hash, 4) == 1 && Home(p1.hash, 4) == 1
    ensures Count([p0, p1], b) == 2
    ensures BucketTable([p0, p1], b)[1] == Some(p1)
  {
    var ps := [p0, p1];
    assert ps[..1] == [p0] && [p0][..0] == [];
    assert InBucket(ps, b) == ps;
    var t := Empty(4);
    assert ProbeSteps(t, 1, 4) == 0;
    var t1 := Insert(t, p1);
    assert t1 == t[1 := Some(p1)];
    assert ProbeSteps(t1, 2, 3) == 0;
    assert ProbeSteps(t1, 1, 4) == 1;
    var t2 := Insert(t1, p0);
    assert t2 == t1[2 := Some(p0)];
    assert Count(ps, b) == 2;
    assert PlaceReversed(t, ps) == PlaceReversed(t1, [p0]);
    assert PlaceReversed(t1, [p0]) == PlaceReversed(t2, []);
  }

  /** The pointers of the two records, and slot 1 of bucket 5's table,
      which holds the zero key's pointer. */
  lemma RecordsLayout(n: nat)
    requires n == 32
    ensures Fits(Records(n))
    ensures Pointers(Records(n)) == [HashPointer(5381, 2048), HashPointer(3911903493, 2057)]
    ensures Count(Pointers(Records(n)), 5) == 2
    ensures BucketTable(Pointers(Records(n)), 5)[1] == Some(HashPointer(3911903493, 2057))
  {
    RecordsPointers(n);
    HashOfZeros32(n);
    SharedHome(HashPointer(5381, 2048), HashPointer(3911903493, 2057), 5);
  }

  /** The empty key holds `[1]` and the zero key `[2]`, once each. */
  lemma RecordsData(n: nat, rs: seq<Element>)
    requires n == 32 && rs == Records(n)
    ensures Element([], [1]) in rs && OnlyData(rs, [], [1])
    ensures Element(Zeros(n), [2]) in rs && OnlyData(rs, Zeros(n), [2])
  {
    assert rs[0] == Element([], [1]) && rs[1] == Element(Zeros(n), [2]);
    assert |Zeros(n)| != 0;
  }

  /** The search for the empty key: the library reader as written returns
      `null` on its first call, reading slot 1 of bucket 5, which holds the
      zero key's pointer; the reference reader and the corrected library
      reader return the empty key's data `[1]`. */
  lemma EmptyKeyMissed(n: nat, rs: seq<Element>, s: SearchState, at: nat)
    requires n == 32 && rs == Records(n) && s.loop == 0
    ensures SearchedAsWritten(Image(rs), SlotEntries(Image(rs)), Buffers.BufferState([], 0, 0), s, at).0 == Miss
    ensures SearchedCorrected(Image(rs), SlotEntries(Image(rs)), Buffers.BufferState([], 0, 0), s, at).0 == Hit([1])
    ensures FindNextOn(rs, [], AsSearch(s)).0 == Hit([1])
  {
    RecordsLayout(n);
    StaleSlotMissed(rs, s, at);
    RecordsData(n, rs);
    CorrectedFindsOnlyData(rs, [], [1], s, at);
    FindsOnlyData(rs, [], [1], AsSearch(s));
  }

  /** The first call of a search for the empty key, in a file whose
      bucket 5 holds two pointers: the walk starts at slot 1 of the
      bucket's table, with the key's hash 5381. */
  lemma EmptyKeyStart(rs: seq<Element>, s: SearchState) returns (start: SearchState)
    requires Fits(rs) && s.loop == 0 && Count(Pointers(rs), 5) == 2
    ensures SlotEntries(Image(rs)).Some?
    ensures Begun(SlotEntries(Image(rs)).value, Buffers.BufferState([], 0, 0), s) == (true, start, Buffers.BufferState([], 0, 0))
    ensures start.loop == 0 < start.hslots && 0 <= start.hpos && start.khash == 5381
    ensures start.kpos == TablePos(Pointers(rs), Eod(rs), 5) + 8
  {
    var key: seq<Byte> := [];
    assert Bucket(Hash(key)) == 5 && Home(Hash(key), 4) == 1;
    var entries, table;
    entries, table, start := StartAgrees(rs, key, s);
  }

  /** The walk for the empty key in the file of the two records starts at
      slot 1 of bucket 5, which holds the zero key's hash and position. */
  lemma StaleSlotMissed(rs: seq<Element>, s: SearchState, at: nat)
    requires Fits(rs) && s.loop == 0
    requires Count(Pointers(rs), 5) == 2 && BucketTable(Pointers(rs), 5)[1] == Some(HashPointer(3911903493, 2057))
    ensures SearchedAsWritten(Image(rs), SlotEntries(Image(rs)), Buffers.BufferState([], 0, 0), s, at).0 == Miss
  {
    var start := EmptyKeyStart(rs, s);
    SlotOfImage(rs, 5, 1, start.kpos);
    ForeignHome(Image(rs), start, at);
    SearchedFromStart(Image(rs), SlotEntries(Image(rs)).value, s, start, at);
  }

  /** A walk for the empty key whose first slot holds another hash and a
      position other than 0 ends with `null`. */
  lemma ForeignHome(file: seq<Byte>, start: SearchState, at: nat)
    requires start.loop < start.hslots && 0 <= start.hpos && 0 <= start.kpos && start.khash == 5381
    requires SlotHolds(file, start.kpos, Some(HashPointer(3911903493, 2057)))
    ensures WalkAsWritten(file, [], start, Buffers.Allocated(8), at).0 == Miss
  {
    assert Wrap32(3911903493) != 5381;
    ForeignFirstSlot(file, [], start, at);
  }

  /** The first call of a search for the empty key is the walk from where
      `Begun` starts it. */
  lemma SearchedFromStart(file: seq<Byte>, entries: seq<SlotEntry>, s: SearchState, start: SearchState, at: nat)
    requires |entries| == BUCKETS
    requires Begun(entries, Buffers.BufferState([], 0, 0), s) == (true, start, Buffers.BufferState([], 0, 0))
    ensures SearchedAsWritten(file, Some(entries), Buffers.BufferState([], 0, 0), s, at) ==
      var (f, p, a) := WalkAsWritten(file, [], start, Buffers.Allocated(8), at); (f, p, Buffers.BufferState([], 0, 0), a)
  {
    assert Buffers.BufferState([], 0, 0).content[0..0] == [];
  }

  /** The search for the zero key, whose hash exceeds the largest `int`: the
      library reader as written never returns its data; the reference
      reader and the corrected library reader return `[2]`. */
  lemma ZeroKeyMissed(n: nat, rs: seq<Element>, s: SearchState, at: nat)
    requires n == 32 && rs == Records(n) && s.loop == 0
    ensures !SearchedAsWritten(Image(rs), SlotEntries(Image(rs)), Buffers.BufferState(Zeros(n), 0, n), s, at).0.Hit?
    ensures SearchedCorrected(Image(rs), SlotEntries(Image(rs)), Buffers.BufferState(Zeros(n), 0, n), s, at).0 == Hit([2])
    ensures FindNextOn(rs, Zeros(n), AsSearch(s)).0 == Hit([2])
  {
    HighHashMissed(Image(rs), n, s, at);
    RecordsLayout(n);
    RecordsData(n, rs);
    CorrectedFindsOnlyData(rs, Zeros(n), [2], s, at);
    FindsOnlyData(rs, Zeros(n), [2], AsSearch(s));
  }

  /** In any file, the library reader as written never returns data for
      the key of 32 zero bytes. */
  lemma HighHashMissed(file: seq<Byte>, n: nat, s: SearchState, at: nat)
    requires n == 32 && s.loop == 0
    ensures !SearchedAsWritten(file, SlotEntries(file), Buffers.BufferState(Zeros(n), 0, n), s, at).0.Hit?
  {
    var key := Zeros(n);
    HashOfZeros32(n);
    assert key[0..n] == key;
    HighHashNeverFound(file, SlotEntries(file), Buffers.BufferState(key, 0, n), s, at);
  }
}
