/** The open-addressed table `finish` builds for one bucket: `2 * count` slots,
    each pointer placed by linear probing from its home slot `(hash >>> 8) % len`,
    wrapping to slot 0 at the end. */
module ProbeTable {
  import opened Bytes
  import opened CdbFormat

  /** A bucket's hash table; `None` is a slot nobody took (`null` in the array). */
  type Table = seq<Option<HashPointer>>

  /** `(hash >>> 8) % len`: the unsigned shift gives the same value for the
      `int` hash and for the `long` hash, since both hold the same low 32 bits. */
  function Home(h: int, len: int): (w: int)
    requires len > 0
    ensures 0 <= w < len
  {
    (Unsigned(h) / 256) % len
  }

  /** `if (++where == len) where = 0`. */
  function Next(w: int, len: int): int
  {
    if w + 1 == len then 0 else w + 1
  }

  /** The slot `j` steps after `w`, with wraparound (at most one round). */
  function Step(w: int, j: int, len: int): (r: int)
    requires 0 <= w < len && 0 <= j <= len
    ensures 0 <= r < len
  {
    if w + j < len then w + j else w + j - len
  }

  /** How many steps from `w` the probe needs to reach a free slot (or `fuel`). */
  function ProbeSteps(t: Table, w: int, fuel: nat): (d: nat)
    requires 0 <= w < |t|
    ensures d <= fuel
    decreases fuel
  {
    if fuel == 0 || t[w].None? then 0 else 1 + ProbeSteps(t, Next(w, |t|), fuel - 1)
  }

  /** Counting from the next slot is counting one more from this one. */
  lemma ShiftStep(w: int, j: nat, len: int)
    requires 0 <= w < len && j + 1 <= len
    ensures 0 <= Next(w, len) < len
    ensures Step(Next(w, len), j, len) == Step(w, j + 1, len)
  {
  }

  /** The probe passes only occupied slots and stops at the first free one. */
  lemma {:induction false} ProbeStepsPath(t: Table, w: int, fuel: nat)
    requires 0 <= w < |t| && fuel <= |t|
    ensures forall j :: 0 <= j < ProbeSteps(t, w, fuel) ==> t[Step(w, j, |t|)].Some?
    ensures ProbeSteps(t, w, fuel) < fuel ==> t[Step(w, ProbeSteps(t, w, fuel), |t|)].None?
    decreases fuel
  {
    var d := ProbeSteps(t, w, fuel);
    if fuel > 0 && t[w].Some? {
      var n := Next(w, |t|);
      ProbeStepsPath(t, n, fuel - 1);
      forall j | 0 <= j < d
        ensures t[Step(w, j, |t|)].Some?
      {
        if j > 0 {
          ShiftStep(w, j - 1, |t|);
        }
      }
      if d < fuel {
        ShiftStep(w, d - 1, |t|);
      }
    }
  }

  /** The distance, going forwards with wraparound, from slot `a` to slot `s`. */
  function Dist(a: int, s: int, len: int): (d: int)
    requires 0 <= a < len && 0 <= s < len
    ensures 0 <= d < len
  {
    if a <= s then s - a else s - a + len
  }

  lemma StepDist(a: int, s: int, len: int)
    requires 0 <= a < len && 0 <= s < len
    ensures Step(a, Dist(a, s, len), len) == s
  {
  }

  /** With at least one free slot, a full round of probing from any slot ends on a free slot. */
  lemma ProbeFindsFree(t: Table, w: int)
    requires 0 <= w < |t| && None in t
    ensures ProbeSteps(t, w, |t|) < |t|
    ensures t[Step(w, ProbeSteps(t, w, |t|), |t|)].None?
  {
    ProbeStepsPath(t, w, |t|);
    var i :| 0 <= i < |t| && t[i].None?;
    StepDist(w, i, |t|);
    assert t[Step(w, Dist(w, i, |t|), |t|)].None?;
  }

  /** The slot a pointer with home `w` goes to. */
  function Probe(t: Table, w: int): (r: int)
    requires 0 <= w < |t|
    ensures 0 <= r < |t|
  {
    Step(w, ProbeSteps(t, w, |t|), |t|)
  }

  /** `len` empty slots. */
  function Empty(len: nat): (t: Table)
    ensures |t| == len && forall i :: 0 <= i < len ==> t[i].None?
  {
    if len == 0 then [] else Empty(len - 1) + [None]
  }

  /** Storing `p` at the first free slot from its home. */
  function Insert(t: Table, p: HashPointer): (r: Table)
    requires |t| > 0
    ensures |r| == |t|
  {
    t[Probe(t, Home(p.hash, |t|)) := Some(p)]
  }

  /** The pointers inserted from the last to the first: the order in which the
      build loop meets them after distribution has reversed each bucket. */
  function PlaceReversed(t: Table, ps: seq<HashPointer>): (r: Table)
    requires |t| > 0 || ps == []
    ensures |r| == |t|
    decreases |ps|
  {
    if ps == [] then t else PlaceReversed(Insert(t, ps[|ps| - 1]), ps[..|ps| - 1])
  }

  /** The table of bucket `b`: twice as many slots as pointers, filled with the
      bucket's pointers, the one added last going in first. */
  function BucketTable(ps: seq<HashPointer>, b: int): (t: Table)
    ensures |t| == 2 * Count(ps, b)
  {
    PlaceReversed(Empty(2 * Count(ps, b)), InBucket(ps, b))
  }

  /** Every pointer sits on the probe chain from its own home slot: all the
      slots from the home up to it are taken. */
  ghost predicate Chained(t: Table)
  {
    |t| > 0 ==>
      forall s, j :: 0 <= s < |t| && t[s].Some? && 0 <= j < Dist(Home(t[s].value.hash, |t|), s, |t|) ==>
        t[Step(Home(t[s].value.hash, |t|), j, |t|)].Some?
  }

  /** Inserting into a table with a free slot takes exactly one free slot. */
  lemma InsertCounts(t: Table, p: HashPointer)
    requires None in t
    ensures multiset(Insert(t, p)) == multiset(t) - multiset{None} + multiset{Some(p)}
  {
    var h := Home(p.hash, |t|);
    ProbeFindsFree(t, h);
    ProbeStepsPath(t, h, |t|);
  }

  /** Inserting into a table with a free slot keeps every taken slot and
      keeps every pointer on its probe chain. */
  lemma InsertChained(t: Table, p: HashPointer)
    requires None in t && Chained(t)
    ensures Chained(Insert(t, p))
    ensures forall i :: 0 <= i < |t| && t[i].Some? ==> Insert(t, p)[i] == t[i]
  {
    var h := Home(p.hash, |t|);
    var d := ProbeSteps(t, h, |t|);
    ProbeFindsFree(t, h);
    ProbeStepsPath(t, h, |t|);
    var w := Probe(t, h);
    var r := Insert(t, p);
    assert r == t[w := Some(p)];
    assert Dist(h, w, |t|) == d by {
      DistStep(h, d, |t|);
    }
    forall s, j | 0 <= s < |r| && r[s].Some? && 0 <= j < Dist(Home(r[s].value.hash, |r|), s, |r|)
      ensures r[Step(Home(r[s].value.hash, |r|), j, |r|)].Some?
    {
      if s != w {
        assert t[s] == r[s];
      }
    }
  }

  lemma DistStep(a: int, d: int, len: int)
    requires 0 <= a < len && 0 <= d < len
    ensures Dist(a, Step(a, d, len), len) == d
  {
    if a + d < len {
      assert Step(a, d, len) == a + d;
    } else {
      assert Step(a, d, len) == a + d - len;
    }
  }

  /** Placing fewer pointers than there are free slots uses one free slot per
      pointer, stores each pointer as often as it is placed and keeps every
      pointer on its probe chain. */
  lemma PlaceProperties(t: Table, ps: seq<HashPointer>)
    requires |ps| < multiset(t)[None] && Chained(t)
    ensures multiset(PlaceReversed(t, ps))[None] == multiset(t)[None] - |ps|
    ensures forall p :: multiset(PlaceReversed(t, ps))[Some(p)] == multiset(t)[Some(p)] + multiset(ps)[p]
    ensures Chained(PlaceReversed(t, ps))
  {
    PlaceCounts(t, ps);
    PlaceChained(t, ps);
  }

  lemma PlaceCounts(t: Table, ps: seq<HashPointer>)
    requires |ps| < multiset(t)[None]
    ensures multiset(PlaceReversed(t, ps))[None] == multiset(t)[None] - |ps|
    ensures forall p :: multiset(PlaceReversed(t, ps))[Some(p)] == multiset(t)[Some(p)] + multiset(ps)[p]
  {
    PlaceFree(t, ps);
    forall q
      ensures multiset(PlaceReversed(t, ps))[Some(q)] == multiset(t)[Some(q)] + multiset(ps)[q]
    {
      PlaceCount(t, ps, q);
    }
  }

  lemma {:induction false} PlaceFree(t: Table, ps: seq<HashPointer>)
    requires |ps| < multiset(t)[None]
    ensures multiset(PlaceReversed(t, ps))[None] == multiset(t)[None] - |ps|
    decreases |ps|
  {
    if ps != [] {
      var p := ps[|ps| - 1];
      assert None in multiset(t);
      InsertCounts(t, p);
      PlaceFree(Insert(t, p), ps[..|ps| - 1]);
    }
  }

  lemma {:induction false} PlaceCount(t: Table, ps: seq<HashPointer>, q: HashPointer)
    requires |ps| < multiset(t)[None]
    ensures multiset(PlaceReversed(t, ps))[Some(q)] == multiset(t)[Some(q)] + multiset(ps)[q]
    decreases |ps|
  {
    if ps != [] {
      var init := ps[..|ps| - 1];
      var p := ps[|ps| - 1];
      assert None in multiset(t);
      InsertCounts(t, p);
      var u := Insert(t, p);
      PlaceCount(u, init, q);
      assert init + [p] == ps;
      assert multiset(ps)[q] == multiset(init)[q] + multiset{p}[q];
      assert multiset(u)[Some(q)] == multiset(t)[Some(q)] + multiset{Some(p)}[Some(q)];
    }
  }

  lemma {:induction false} PlaceChained(t: Table, ps: seq<HashPointer>)
    requires |ps| < multiset(t)[None] && Chained(t)
    ensures Chained(PlaceReversed(t, ps))
    decreases |ps|
  {
    if ps != [] {
      var p := ps[|ps| - 1];
      assert None in multiset(t);
      InsertCounts(t, p);
      InsertChained(t, p);
      PlaceChained(Insert(t, p), ps[..|ps| - 1]);
    }
  }

  lemma {:induction false} EmptyMultiset(n: nat)
    ensures multiset(Empty(n))[None] == n
    ensures forall p :: multiset(Empty(n))[Some(p)] == 0
  {
    if n > 0 {
      EmptyMultiset(n - 1);
      assert Empty(n) == Empty(n - 1) + [None];
    } else {
      assert Empty(0) == [];
    }
  }

  /** A bucket table holds exactly the bucket's pointers, each once, and as many
      free slots as pointers; every pointer is reachable by probing from its home. */
  lemma BucketTableProperties(ps: seq<HashPointer>, b: int)
    ensures multiset(BucketTable(ps, b))[None] == Count(ps, b)
    ensures forall p :: multiset(BucketTable(ps, b))[Some(p)] == multiset(InBucket(ps, b))[p]
    ensures Chained(BucketTable(ps, b))
  {
    var n := 2 * Count(ps, b);
    EmptyMultiset(n);
    if Count(ps, b) == 0 {
      assert InBucket(ps, b) == [];
    } else {
      PlaceProperties(Empty(n), InBucket(ps, b));
    }
  }

  /** The table of a bucket with a single pointer: two slots, the pointer
      in its home slot and the other slot free. */
  lemma LoneTable(ps: seq<HashPointer>, b: int) returns (p: HashPointer)
    requires Count(ps, b) == 1
    ensures InBucket(ps, b) == [p]
    ensures BucketTable(ps, b)[Home(p.hash, 2)] == Some(p)
    ensures BucketTable(ps, b)[1 - Home(p.hash, 2)] == None
  {
    p := InBucket(ps, b)[0];
    assert InBucket(ps, b) == [p];
    var e := Empty(2);
    var w := Home(p.hash, 2);
    assert ProbeSteps(e, w, 2) == 0;
    assert BucketTable(ps, b) == PlaceReversed(Insert(e, p), []);
  }

  /** Inserting `q` after the pointers of `s` is placing `[q] + s`: the first
      pointer of the list goes in last. */
  lemma {:induction false} PlaceReversedCons(t: Table, q: HashPointer, s: seq<HashPointer>)
    requires |t| > 0
    ensures PlaceReversed(t, [q] + s) == Insert(PlaceReversed(t, s), q)
    decreases |s|
  {
    if s == [] {
      assert ([q] + s)[..0] == [];
    } else {
      var init := s[..|s| - 1];
      assert ([q] + s)[..|s|] == [q] + init;
      PlaceReversedCons(Insert(t, s[|s| - 1]), q, init);
    }
  }

  /** Fewer pointers than slots leave a free slot for the next one. */
  lemma PlacedHasFree(n: nat, s: seq<HashPointer>)
    requires |s| < n
    ensures None in PlaceReversed(Empty(n), s)
  {
    EmptyMultiset(n);
    assert Chained(Empty(n));
    PlaceProperties(Empty(n), s);
    assert None in multiset(PlaceReversed(Empty(n), s));
  }
}
