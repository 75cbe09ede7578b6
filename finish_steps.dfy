/** The loops `finish` runs before it writes anything: the prefix sums over the
    bucket counts, the distribution of the pointers into per-bucket slices, the
    construction of one bucket's hash table by linear probing, and the packing
    of a little-endian integer into the header buffer. Both builders run the
    same steps. */
module FinishSteps {
  import opened Bytes
  import opened CdbFormat
  import opened ProbeTable
  import opened Seqs

  /** The first loop of `finish`: `tableStart[i]` becomes the number of pointers
      in buckets `0 .. i`, which is where the slice of bucket `i` ends. */
  method PrefixSums(ghost ps: seq<HashPointer>, tableCount: array<int>, tableStart: array<int>)
    requires tableCount.Length == BUCKETS && tableStart.Length == BUCKETS && tableCount != tableStart
    requires forall b :: 0 <= b < BUCKETS ==> tableCount[b] == Count(ps, b)
    modifies tableStart
    ensures forall b :: 0 <= b < BUCKETS ==> tableStart[b] == Before(ps, b + 1)
  {
    var curEntry := 0;
    var i := 0;
    while i < BUCKETS
      invariant 0 <= i <= BUCKETS && curEntry == Before(ps, i)
      invariant forall b :: 0 <= b < i ==> tableStart[b] == Before(ps, b + 1)
    {
      curEntry := curEntry + tableCount[i];
      tableStart[i] := curEntry;
      i := i + 1;
    }
  }

  /** How many of the first `k` pointers fall into bucket `b`. */
  function CountUpTo(ps: seq<HashPointer>, k: nat, b: int): (n: nat)
    requires k <= |ps|
    ensures n <= k
  {
    if k == 0 then 0 else CountUpTo(ps, k - 1, b) + (if Bucket(ps[k - 1].hash) == b then 1 else 0)
  }

  /** Counting along the way agrees with counting the prefix. */
  lemma {:induction false} CountUpToPrefix(ps: seq<HashPointer>, k: nat, b: int)
    requires k <= |ps|
    ensures CountUpTo(ps, k, b) == Count(ps[..k], b)
  {
    if k > 0 {
      CountUpToPrefix(ps, k - 1, b);
      assert ps[..k] == ps[..k - 1] + [ps[k - 1]];
      InBucketSnoc(ps[..k - 1], ps[k - 1], b);
    }
  }

  /** Pointer `k` is the next pointer of its bucket after those among the first `k`. */
  lemma NextOfBucket(ps: seq<HashPointer>, k: nat)
    requires k < |ps|
    ensures CountUpTo(ps, k, Bucket(ps[k].hash)) < Count(ps, Bucket(ps[k].hash))
    ensures InBucket(ps, Bucket(ps[k].hash))[CountUpTo(ps, k, Bucket(ps[k].hash))] == ps[k]
  {
    var c := Bucket(ps[k].hash);
    CountUpToPrefix(ps, k, c);
    InBucketStep(ps, k, c);
    InBucketPrefix(ps, k + 1, c);
    LastOfPrefix(InBucket(ps, c), InBucket(ps[..k], c), ps[k], Count(ps[..k + 1], c));
  }

  /** The slice of bucket `b` is `ends[b] - counts[b] .. ends[b]`: the slices
      lie inside `0 .. n` and in bucket order, so they do not overlap. */
  ghost predicate Slices(counts: seq<int>, ends: seq<int>, n: int)
  {
    |counts| == BUCKETS && |ends| == BUCKETS &&
    (forall b :: 0 <= b < BUCKETS ==> 0 <= counts[b] <= ends[b] <= n) &&
    forall b, c :: 0 <= b < c < BUCKETS ==> ends[b] <= ends[c] - counts[c]
  }

  /** The counts and slice ends of the pointers' buckets. */
  ghost predicate SlicesOf(ps: seq<HashPointer>, counts: seq<int>, ends: seq<int>)
  {
    |counts| == BUCKETS && |ends| == BUCKETS &&
    forall b :: 0 <= b < BUCKETS ==> counts[b] == Count(ps, b) && ends[b] == Before(ps, b + 1)
  }

  lemma SlicesHold(ps: seq<HashPointer>, counts: seq<int>, ends: seq<int>)
    requires SlicesOf(ps, counts, ends)
    ensures Slices(counts, ends, |ps|)
  {
    BeforeAll(ps);
    forall b | 0 <= b < BUCKETS
      ensures counts[b] <= ends[b] <= |ps|
    {
      BeforeMono(ps, b + 1, BUCKETS);
    }
    forall b, c | 0 <= b < c < BUCKETS
      ensures ends[b] <= ends[c] - counts[c]
    {
      BeforeMono(ps, b + 1, c);
    }
  }

  /** The starts after the first `k` rounds of the distribution loop: one
      `--tableStart[bucket]` per pointer. */
  function StartsAfter(ps: seq<HashPointer>, ends: seq<int>, k: nat): (r: seq<int>)
    requires k <= |ps| && |ends| == BUCKETS
    ensures |r| == BUCKETS
  {
    if k == 0 then ends
    else
      var s := StartsAfter(ps, ends, k - 1);
      var c := Bucket(ps[k - 1].hash);
      s[c := s[c] - 1]
  }

  /** The slots after the first `k` rounds: pointer `k - 1` is stored at the
      start its round has just moved down. */
  function SlotsAfter(ps: seq<HashPointer>, ends: seq<int>, init: seq<HashPointer>, k: nat): (r: seq<HashPointer>)
    requires k <= |ps| && |ends| == BUCKETS
    ensures |r| == |init|
  {
    if k == 0 then init
    else
      var s := SlotsAfter(ps, ends, init, k - 1);
      var at := StartsAfter(ps, ends, k)[Bucket(ps[k - 1].hash)];
      if 0 <= at < |s| then s[at := ps[k - 1]] else s
  }

  /** The part of each slice above its start holds the bucket's first pointers, in reverse. */
  ghost predicate Filled(ps: seq<HashPointer>, ends: seq<int>, starts: seq<int>, slots: seq<HashPointer>)
    requires |ends| == BUCKETS && |starts| == BUCKETS
  {
    forall b, j :: 0 <= b < BUCKETS && 0 <= j < ends[b] - starts[b] && 0 <= ends[b] - 1 - j < |slots| && j < Count(ps, b) ==>
      slots[ends[b] - 1 - j] == InBucket(ps, b)[j]
  }

  /** Each start moves down once per pointer of its bucket. */
  lemma {:induction false} StartsAfterAt(ps: seq<HashPointer>, ends: seq<int>, k: nat, b: int)
    requires k <= |ps| && |ends| == BUCKETS && 0 <= b < BUCKETS
    ensures StartsAfter(ps, ends, k)[b] == ends[b] - CountUpTo(ps, k, b)
  {
    if k > 0 {
      StartsAfterAt(ps, ends, k - 1, b);
    }
  }

  /** Counting along the way never passes the bucket's count. */
  lemma CountUpToBound(ps: seq<HashPointer>, k: nat, b: int)
    requires k <= |ps|
    ensures CountUpTo(ps, k, b) <= Count(ps, b)
  {
    CountUpToPrefix(ps, k, b);
    InBucketPrefix(ps, k, b);
  }

  /** The slices of two buckets lie inside the array, in bucket order. */
  lemma SliceOrder(ps: seq<HashPointer>, counts: seq<int>, ends: seq<int>, b: int, c: int)
    requires SlicesOf(ps, counts, ends) && 0 <= b < BUCKETS && 0 <= c < BUCKETS
    ensures 0 <= ends[b] - counts[b] && ends[b] <= |ps| && counts[b] == Count(ps, b)
    ensures b < c ==> ends[b] <= ends[c] - counts[c]
    ensures c < b ==> ends[c] <= ends[b] - counts[b]
  {
    SlicesHold(ps, counts, ends);
  }

  /** Round `k` stores its pointer inside the slice of its bucket, just below
      the part already filled. */
  lemma StoreIndex(ps: seq<HashPointer>, counts: seq<int>, ends: seq<int>, k: nat)
    requires SlicesOf(ps, counts, ends) && k < |ps|
    ensures var c := Bucket(ps[k].hash);
      0 <= ends[c] - counts[c] <= ends[c] - 1 - CountUpTo(ps, k, c) < ends[c] <= |ps|
  {
    NextOfBucket(ps, k);
    SliceOrder(ps, counts, ends, Bucket(ps[k].hash), Bucket(ps[k].hash));
  }

  /** After `k` rounds, slot `ends[b] - 1 - j` holds pointer `j` of bucket `b`
      for every `j` that has been stored. */
  lemma {:induction false} FilledAt(ps: seq<HashPointer>, counts: seq<int>, ends: seq<int>, init: seq<HashPointer>, k: nat, b: int, j: int)
    requires SlicesOf(ps, counts, ends) && |init| == |ps| && k <= |ps|
    requires 0 <= b < BUCKETS && 0 <= j < CountUpTo(ps, k, b)
    ensures 0 <= ends[b] - 1 - j < |ps| && j < Count(ps, b)
    ensures SlotsAfter(ps, ends, init, k)[ends[b] - 1 - j] == InBucket(ps, b)[j]
  {
    var c := Bucket(ps[k - 1].hash);
    var n := CountUpTo(ps, k - 1, c);
    SlotsAfterStep(ps, counts, ends, init, k);
    CountUpToBound(ps, k, b);
    var before := SlotsAfter(ps, ends, init, k - 1);
    var i := ends[c] - 1 - n;
    assert SlotsAfter(ps, ends, init, k) == before[i := ps[k - 1]];
    if b == c && j == n {
      assert SlotsAfter(ps, ends, init, k)[i] == ps[k - 1];
    } else {
      FilledAt(ps, counts, ends, init, k - 1, b, j);
      if b == c {
        assert CountUpTo(ps, k, b) == n + 1;
      } else {
        SliceOrder(ps, counts, ends, b, c);
      }
      assert ends[b] - 1 - j != i;
    }
  }

  /** Round `k` stores pointer `k - 1`, the next of its bucket, just below the
      part of its slice already filled. */
  lemma SlotsAfterStep(ps: seq<HashPointer>, counts: seq<int>, ends: seq<int>, init: seq<HashPointer>, k: nat)
    requires SlicesOf(ps, counts, ends) && |init| == |ps| && 0 < k <= |ps|
    ensures var c := Bucket(ps[k - 1].hash); var n := CountUpTo(ps, k - 1, c);
      0 <= ends[c] - 1 - n < |init| && n < Count(ps, c) && InBucket(ps, c)[n] == ps[k - 1] &&
      SlotsAfter(ps, ends, init, k) == SlotsAfter(ps, ends, init, k - 1)[ends[c] - 1 - n := ps[k - 1]]
  {
    var c := Bucket(ps[k - 1].hash);
    StartsAfterAt(ps, ends, k, c);
    StoreIndex(ps, counts, ends, k - 1);
    NextOfBucket(ps, k - 1);
  }

  /** The store of round `k` lands inside the array. */
  lemma DistributeIndex(ps: seq<HashPointer>, counts: seq<int>, ends: seq<int>, k: nat)
    requires SlicesOf(ps, counts, ends) && k < |ps|
    ensures 0 <= StartsAfter(ps, ends, k)[Bucket(ps[k].hash)] - 1 < |ps|
  {
    StartsAfterAt(ps, ends, k, Bucket(ps[k].hash));
    StoreIndex(ps, counts, ends, k);
  }

  /** After the last round every pointer of every bucket has been stored. */
  lemma DistributeDone(ps: seq<HashPointer>, counts: seq<int>, ends: seq<int>, init: seq<HashPointer>)
    requires SlicesOf(ps, counts, ends) && |init| == |ps|
    ensures forall b :: 0 <= b < BUCKETS ==> StartsAfter(ps, ends, |ps|)[b] == ends[b] - counts[b]
    ensures Filled(ps, ends, StartsAfter(ps, ends, |ps|), SlotsAfter(ps, ends, init, |ps|))
  {
    var starts := StartsAfter(ps, ends, |ps|);
    forall b | 0 <= b < BUCKETS
      ensures starts[b] == ends[b] - counts[b]
    {
      StartsAfterAt(ps, ends, |ps|, b);
      CountUpToPrefix(ps, |ps|, b);
      assert ps[..|ps|] == ps;
    }
    forall b, j | 0 <= b < BUCKETS && 0 <= j < ends[b] - starts[b]
      ensures 0 <= ends[b] - 1 - j < |ps| && SlotsAfter(ps, ends, init, |ps|)[ends[b] - 1 - j] == InBucket(ps, b)[j]
    {
      StartsAfterAt(ps, ends, |ps|, b);
      FilledAt(ps, counts, ends, init, |ps|, b, j);
    }
  }

  /** Bucket `b`'s pointers fill `slots[start .. start + count)`, the one added
      last first. */
  ghost predicate SliceHolds(ps: seq<HashPointer>, slots: seq<HashPointer>, start: int, b: int)
  {
    0 <= start && start + Count(ps, b) <= |slots| &&
    forall j :: 0 <= j < Count(ps, b) ==> slots[start + Count(ps, b) - 1 - j] == InBucket(ps, b)[j]
  }

  /** After the distribution loop: the counts are the bucket sizes, every start
      is the number of pointers in lower buckets, and each slice holds its
      bucket in reverse order of addition. */
  ghost predicate Distributed(ps: seq<HashPointer>, counts: seq<int>, starts: seq<int>, slots: seq<HashPointer>)
  {
    |counts| == BUCKETS && |starts| == BUCKETS && |slots| == |ps| &&
    forall b {:trigger starts[b]} :: 0 <= b < BUCKETS ==>
      counts[b] == Count(ps, b) && starts[b] == Before(ps, b) && SliceHolds(ps, slots, starts[b], b)
  }

  /** What the distribution loop leaves for bucket `b`. */
  lemma BucketSlice(ps: seq<HashPointer>, counts: seq<int>, starts: seq<int>, slots: seq<HashPointer>, b: int)
    requires Distributed(ps, counts, starts, slots) && 0 <= b < BUCKETS
    ensures counts[b] == Count(ps, b) && starts[b] == Before(ps, b) && SliceHolds(ps, slots, starts[b], b)
  {
  }

  /** The slices the loop filled, read from their starts. */
  lemma DistributedOf(ps: seq<HashPointer>, counts: seq<int>, ends: seq<int>, starts: seq<int>, slots: seq<HashPointer>)
    requires SlicesOf(ps, counts, ends) && |starts| == BUCKETS && |slots| == |ps|
    requires forall b :: 0 <= b < BUCKETS ==> starts[b] == ends[b] - counts[b]
    requires Filled(ps, ends, starts, slots)
    ensures Distributed(ps, counts, starts, slots)
  {
    forall b | 0 <= b < BUCKETS
      ensures counts[b] == Count(ps, b) && starts[b] == Before(ps, b) && SliceHolds(ps, slots, starts[b], b)
    {
      SliceOfFilled(ps, counts, ends, starts, slots, b);
    }
  }

  /** Bucket `b`'s slice, read from its start once the loop has filled it. */
  lemma SliceOfFilled(ps: seq<HashPointer>, counts: seq<int>, ends: seq<int>, starts: seq<int>, slots: seq<HashPointer>, b: int)
    requires SlicesOf(ps, counts, ends) && |starts| == BUCKETS && |slots| == |ps| && 0 <= b < BUCKETS
    requires starts[b] == ends[b] - counts[b] && Filled(ps, ends, starts, slots)
    ensures counts[b] == Count(ps, b) && starts[b] == Before(ps, b) && SliceHolds(ps, slots, starts[b], b)
  {
    SliceOrder(ps, counts, ends, b, b);
    FilledSlice(ps, ends, starts, slots, b, starts[b]);
  }

  /** A slice the loop has filled down to its start holds the whole bucket. */
  lemma FilledSlice(ps: seq<HashPointer>, ends: seq<int>, starts: seq<int>, slots: seq<HashPointer>, b: int, start: int)
    requires |ends| == BUCKETS && |starts| == BUCKETS && 0 <= b < BUCKETS && Filled(ps, ends, starts, slots)
    requires start == starts[b] == ends[b] - Count(ps, b) && 0 <= start && ends[b] <= |slots|
    ensures SliceHolds(ps, slots, start, b)
  {
    forall j | 0 <= j < Count(ps, b)
      ensures slots[start + Count(ps, b) - 1 - j] == InBucket(ps, b)[j]
    {
      assert start + Count(ps, b) - 1 - j == ends[b] - 1 - j;
    }
  }

  /** The second loop of `finish`: every pointer, in the order they were added,
      goes to `slotPointers[--tableStart[bucket]]`. */
  method Distribute(ps: seq<HashPointer>, ghost counts: seq<int>, tableStart: array<int>) returns (slotPointers: array<HashPointer>)
    requires tableStart.Length == BUCKETS
    requires SlicesOf(ps, counts, tableStart[..])
    modifies tableStart
    ensures fresh(slotPointers)
    ensures Distributed(ps, counts, tableStart[..], slotPointers[..])
  {
    ghost var ends := tableStart[..];
    slotPointers := new HashPointer[|ps|];
    ghost var init := slotPointers[..];
    StoreAll(ps, counts, tableStart, slotPointers);
    DistributedAfter(ps, counts, ends, init);
  }

  /** The loop of the distribution: round `k` stores pointer `k`. */
  method StoreAll(ps: seq<HashPointer>, ghost counts: seq<int>, tableStart: array<int>, slotPointers: array<HashPointer>)
    requires tableStart.Length == BUCKETS && slotPointers.Length == |ps|
    requires SlicesOf(ps, counts, tableStart[..])
    modifies tableStart, slotPointers
    ensures tableStart[..] == StartsAfter(ps, old(tableStart[..]), |ps|)
    ensures slotPointers[..] == SlotsAfter(ps, old(tableStart[..]), old(slotPointers[..]), |ps|)
  {
    ghost var ends, init := tableStart[..], slotPointers[..];
    var k := 0;
    while k < |ps|
      invariant k <= |ps|
      invariant tableStart[..] == StartsAfter(ps, ends, k) && slotPointers[..] == SlotsAfter(ps, ends, init, k)
    {
      var hp := ps[k];
      DistributeIndex(ps, counts, ends, k);
      Store(hp, tableStart, slotPointers);
      k := k + 1;
    }
  }

  /** After the last round each bucket's slice starts where the layout puts it
      and holds the bucket's pointers, the one added last first. */
  lemma DistributedAfter(ps: seq<HashPointer>, counts: seq<int>, ends: seq<int>, init: seq<HashPointer>)
    requires SlicesOf(ps, counts, ends) && |init| == |ps|
    ensures Distributed(ps, counts, StartsAfter(ps, ends, |ps|), SlotsAfter(ps, ends, init, |ps|))
  {
    DistributeDone(ps, counts, ends, init);
    DistributedOf(ps, counts, ends, StartsAfter(ps, ends, |ps|), SlotsAfter(ps, ends, init, |ps|));
  }

  /** `slotPointers[--tableStart[bucket]] = hp` for the pointer `hp`. */
  method Store(hp: HashPointer, tableStart: array<int>, slotPointers: array<HashPointer>)
    requires tableStart.Length == BUCKETS && 0 <= tableStart[Bucket(hp.hash)] - 1 < slotPointers.Length
    modifies tableStart, slotPointers
    ensures tableStart[..] == old(tableStart[..])[Bucket(hp.hash) := old(tableStart[Bucket(hp.hash)]) - 1]
    ensures slotPointers[..] == old(slotPointers[..])[old(tableStart[Bucket(hp.hash)]) - 1 := hp]
  {
    var c := Bucket(hp.hash);
    tableStart[c] := tableStart[c] - 1;
    slotPointers[tableStart[c]] := hp;
  }

  /** The build loop of `finish` for one bucket: its `count` pointers are taken
      from `slotPointers[start ..]` and each is stored at the first free slot
      from `(hash >>> 8) % len`, wrapping to slot 0 after the last slot. */
  method BuildTable(slotPointers: array<HashPointer>, start: int, count: int, ghost ps: seq<HashPointer>, ghost b: int)
      returns (hashTable: array<Option<HashPointer>>)
    requires count == Count(ps, b) && SliceHolds(ps, slotPointers[..], start, b)
    ensures fresh(hashTable)
    ensures hashTable[..] == BucketTable(ps, b)
  {
    ghost var qs := InBucket(ps, b);
    var len := count * 2;
    hashTable := new Option<HashPointer>[len](_ => None);
    assert hashTable[..] == Empty(len);
    PlaceAll(hashTable, slotPointers, start, count, qs);
  }

  /** The loop of the build: the `count` pointers from `slotPointers[start]`
      on, which are the bucket's pointers last first, each go to their free slot. */
  method PlaceAll(hashTable: array<Option<HashPointer>>, slotPointers: array<HashPointer>, start: int, count: int, ghost qs: seq<HashPointer>)
    requires |qs| == count <= hashTable.Length && hashTable[..] == Empty(hashTable.Length)
    requires 0 <= start && start + count <= slotPointers.Length
    requires forall j :: 0 <= j < count ==> slotPointers[start + count - 1 - j] == qs[j]
    modifies hashTable
    ensures hashTable[..] == PlaceReversed(Empty(hashTable.Length), qs)
  {
    var curSlotPointer := start;
    var u := 0;
    while u < count
      invariant 0 <= u <= count && curSlotPointer == start + u
      invariant hashTable[..] == PlaceReversed(Empty(hashTable.Length), qs[count - u..])
    {
      var hp := slotPointers[curSlotPointer];
      assert start + count - 1 - (count - 1 - u) == curSlotPointer;
      curSlotPointer := curSlotPointer + 1;
      PlaceNext(hashTable, hp, qs, count - 1 - u);
      u := u + 1;
    }
  }

  /** A round of the build loop: pointer `i` of the bucket joins those after it. */
  method PlaceNext(hashTable: array<Option<HashPointer>>, hp: HashPointer, ghost qs: seq<HashPointer>, ghost i: int)
    requires 0 <= i < |qs| && hp == qs[i] && |qs| - i - 1 < hashTable.Length
    requires hashTable[..] == PlaceReversed(Empty(hashTable.Length), qs[i + 1..])
    modifies hashTable
    ensures hashTable[..] == PlaceReversed(Empty(hashTable.Length), qs[i..])
  {
    Place(hashTable, hp, qs[i + 1..]);
    ConsSuffix(qs, i + 1);
  }

  /** One step of the build loop: the pointer goes to its free slot. */
  method Place(hashTable: array<Option<HashPointer>>, hp: HashPointer, ghost placed: seq<HashPointer>)
    requires |placed| < hashTable.Length && hashTable[..] == PlaceReversed(Empty(hashTable.Length), placed)
    modifies hashTable
    ensures hashTable[..] == PlaceReversed(Empty(hashTable.Length), [hp] + placed)
  {
    PlacedHasFree(hashTable.Length, placed);
    var where := FreeSlot(hashTable, Home(hp.hash, hashTable.Length));
    hashTable[where] := Some(hp);
    PlaceReversedCons(Empty(hashTable.Length), hp, placed);
  }

  /** `while (hashTable[where] != null) if (++where == len) where = 0;`:
      the slot a pointer with home `w` is stored in. */
  method FreeSlot(hashTable: array<Option<HashPointer>>, w: int) returns (where: int)
    requires 0 <= w < hashTable.Length && None in hashTable[..]
    ensures where == Probe(hashTable[..], w)
  {
    ghost var t := hashTable[..];
    ghost var len := hashTable.Length;
    ProbeStepsPath(t, w, len);
    ProbeFindsFree(t, w);
    ghost var d := 0;
    where := w;
    while hashTable[where].Some?
      invariant 0 <= d <= ProbeSteps(t, w, len) && where == Step(w, d, len)
      decreases ProbeSteps(t, w, len) - d
    {
      where := where + 1;
      if where == hashTable.Length {
        where := 0;
      }
      d := d + 1;
    }
  }

  /** The eight assignments into `slotTable` for one value: `v & 0xff`, then
      `(v >>> 8) & 0xff` and so on, at `off .. off + 3`. */
  method PutLeInt(a: array<Byte>, off: int, v: int)
    requires 0 <= off && off + 4 <= a.Length
    modifies a
    ensures a[..off] == old(a[..off]) && a[off..off + 4] == LeBytes(v) && a[off + 4..] == old(a[off + 4..])
  {
    var u := Unsigned(v);
    a[off] := ByteOf(u % 256);
    a[off + 1] := ByteOf(u / 256 % 256);
    a[off + 2] := ByteOf(u / 256 / 256 % 256);
    a[off + 3] := ByteOf(u / 256 / 256 / 256 % 256);
    LeBytesDigits(v);
  }

  /** The eight bytes of header entry `i`: the table's position, then its length. */
  method PutEntry(slotTable: array<Byte>, i: int, pos: int, len: int, ghost entries: seq<Byte>)
    requires 0 <= i && 8 * i + 8 <= slotTable.Length && slotTable[..8 * i] == entries
    modifies slotTable
    ensures slotTable[..8 * (i + 1)] == entries + LeBytes(pos) + LeBytes(len)
    ensures slotTable[8 * (i + 1)..] == old(slotTable[8 * (i + 1)..])
  {
    ghost var before := slotTable[..];
    PutLeInt(slotTable, 8 * i, pos);
    PutLeInt(slotTable, 8 * i + 4, len);
    assert slotTable[..8 * i + 8] == slotTable[..8 * i] + slotTable[8 * i..8 * i + 4] + slotTable[8 * i + 4..8 * i + 8];
    assert slotTable[..8 * i] == slotTable[..8 * i + 4][..8 * i];
  }
}
