/**
 * Finding a read's NAMs: every query seed is looked up in the index; seeds that are absent are
 * skipped and seeds occurring more than the filter cutoff times are skipped too; the occurrences
 * of the remaining seeds become hits, pruned greedily by a running minimum of the difference
 * between the query span and the reference span; the hits, grouped by reference, are merged into
 * NAMs.
 *
 * The hash map from reference index to hits is represented by the sequence of all pushes in the
 * order they happen, each tagged with its reference; a reference's vector is the subsequence of
 * its pushes, and the map is rebuilt from the sequence.
 */
module NamFinder {
  import opened Base
  import opened IndexRecords
  import opened NamTypes
  import opened NamMerge

  /** The running minimum every seed starts from. */
  const InitialMinDiff: int := 100_000

  /** A query seed: its hash, its span on the query and whether it comes from the reverse strand. */
  datatype QueryRandstrobe = QueryRandstrobe(hash: u64, start: int, end: int, isReverse: bool)

  /** One push onto `hits_per_ref[refId]`. */
  datatype RefHit = RefHit(refId: nat, hit: Hit)

  // ---------------------------------------------------------------- one occurrence

  /**
   * The hit occurrence `j` of the index gives the seed: the occurrence's first-strobe position
   * (an `unsigned int` stored into an `int`) up to past the second strobe, on the occurrence's
   * reference, with the seed's query span and strand.
   */
  function OccurrenceHit(idx: StrobemerIndex, j: nat, q: QueryRandstrobe): (r: RefHit)
    requires j < |idx.entries|
    ensures r.refId == idx.ReferenceIndex(j) && r.refId < ReferenceLimit
    ensures r.hit.queryS == q.start && r.hit.queryE == q.end && r.hit.isRc == q.isReverse
    ensures ToU32(r.hit.refS) == idx.GetStrob1Position(j)
    ensures r.hit.refE - r.hit.refS == idx.Strobe2Offset(j) + idx.k
  {
    var refS := AsInt32(idx.GetStrob1Position(j));
    RefHit(idx.ReferenceIndex(j), Hit(q.start, q.end, refS, refS + idx.Strobe2Offset(j) + idx.k, q.isReverse))
  }

  /** `|(query_e - query_s) - (ref_e - ref_s)|`: how much the two spans of a hit differ. */
  function HitDiff(h: Hit): nat
  {
    Abs((h.queryE - h.queryS) - (h.refE - h.refS))
  }

  function Diff(idx: StrobemerIndex, j: nat, q: QueryRandstrobe): nat
    requires j < |idx.entries|
  {
    HitDiff(OccurrenceHit(idx, j, q).hit)
  }

  // ---------------------------------------------------------------- the pruning, specified

  /**
   * Occurrence `j` of the run starting at `lo` is kept: its difference is within the bound and
   * no larger than the difference of any earlier occurrence of the run (ties are kept).
   */
  predicate Kept(idx: StrobemerIndex, q: QueryRandstrobe, lo: nat, j: nat, bound: int)
    requires lo <= j < |idx.entries|
  {
    && Diff(idx, j, q) <= bound
    && forall l :: lo <= l < j ==> Diff(idx, j, q) <= Diff(idx, l, q)
  }

  /** The hits of the kept occurrences among `lo .. lo + n - 1`, in storage order. */
  function KeptHits(idx: StrobemerIndex, q: QueryRandstrobe, lo: nat, n: nat, bound: int): seq<RefHit>
    requires lo + n <= |idx.entries|
  {
    if n == 0 then []
    else
      KeptHits(idx, q, lo, n - 1, bound)
      + (if Kept(idx, q, lo, lo + n - 1, bound) then [OccurrenceHit(idx, lo + n - 1, q)] else [])
  }

  /** The bound lowered by the differences of occurrences `lo .. j - 1`. */
  function RunningMin(idx: StrobemerIndex, q: QueryRandstrobe, lo: nat, j: nat, bound: int): int
    requires lo <= j <= |idx.entries|
    decreases j - lo
  {
    if j == lo then bound else Min(RunningMin(idx, q, lo, j - 1, bound), Diff(idx, j - 1, q))
  }

  /** The running minimum is the least of the bound and the earlier differences. */
  lemma {:induction false} RunningMinIsLeast(idx: StrobemerIndex, q: QueryRandstrobe, lo: nat, j: nat, bound: int)
    requires lo <= j <= |idx.entries|
    ensures RunningMin(idx, q, lo, j, bound) <= bound
    ensures forall l :: lo <= l < j ==> RunningMin(idx, q, lo, j, bound) <= Diff(idx, l, q)
    ensures RunningMin(idx, q, lo, j, bound) == bound
            || exists l :: lo <= l < j && RunningMin(idx, q, lo, j, bound) == Diff(idx, l, q)
    decreases j - lo
  {
    if j > lo {
      RunningMinIsLeast(idx, q, lo, j - 1, bound);
    }
  }

  /**
   * Comparing against the running minimum, as the source does, keeps exactly the occurrences
   * whose difference is a prefix minimum within the bound.
   */
  lemma KeptIffWithinRunningMin(idx: StrobemerIndex, q: QueryRandstrobe, lo: nat, j: nat, bound: int)
    requires lo <= j < |idx.entries|
    ensures Kept(idx, q, lo, j, bound) <==> Diff(idx, j, q) <= RunningMin(idx, q, lo, j, bound)
  {
    RunningMinIsLeast(idx, q, lo, j, bound);
  }

  /** At most one hit per occurrence, and every hit carries the seed's query span and strand. */
  lemma {:induction false} KeptHitsCarry(idx: StrobemerIndex, q: QueryRandstrobe, lo: nat, n: nat, bound: int)
    requires lo + n <= |idx.entries|
    ensures var r := KeptHits(idx, q, lo, n, bound);
      && |r| <= n
      && (forall e <- r :: e.hit.queryS == q.start && e.hit.queryE == q.end && e.hit.isRc == q.isReverse)
  {
    if n > 0 {
      KeptHitsCarry(idx, q, lo, n - 1, bound);
    }
  }

  /** The kept hits' differences lie between the running minimum after the run and the bound. */
  lemma {:induction false} KeptHitsBounds(idx: StrobemerIndex, q: QueryRandstrobe, lo: nat, n: nat, bound: int)
    requires lo + n <= |idx.entries|
    ensures forall e <- KeptHits(idx, q, lo, n, bound) :: RunningMin(idx, q, lo, lo + n, bound) <= HitDiff(e.hit) <= bound
  {
    if n > 0 {
      var j := lo + n - 1;
      var prev := KeptHits(idx, q, lo, n - 1, bound);
      KeptHitsBounds(idx, q, lo, n - 1, bound);
      assert RunningMin(idx, q, lo, lo + n, bound) <= RunningMin(idx, q, lo, j, bound);
      forall e <- KeptHits(idx, q, lo, n, bound)
        ensures RunningMin(idx, q, lo, lo + n, bound) <= HitDiff(e.hit) <= bound
      {
        if e !in prev {
          assert e == OccurrenceHit(idx, j, q);
        }
      }
    }
  }

  predicate NonIncreasingDiffs(r: seq<RefHit>)
  {
    forall a, b :: 0 <= a < b < |r| ==> HitDiff(r[b].hit) <= HitDiff(r[a].hit)
  }

  /** The differences of the kept hits never increase along the run. */
  lemma {:induction false} KeptHitsNonIncreasing(idx: StrobemerIndex, q: QueryRandstrobe, lo: nat, n: nat, bound: int)
    requires lo + n <= |idx.entries|
    ensures NonIncreasingDiffs(KeptHits(idx, q, lo, n, bound))
  {
    if n > 0 {
      var j := lo + n - 1;
      var prev := KeptHits(idx, q, lo, n - 1, bound);
      var r := KeptHits(idx, q, lo, n, bound);
      KeptHitsNonIncreasing(idx, q, lo, n - 1, bound);
      if Kept(idx, q, lo, j, bound) {
        KeptHitsBounds(idx, q, lo, n - 1, bound);
        KeptIffWithinRunningMin(idx, q, lo, j, bound);
        assert r == prev + [OccurrenceHit(idx, j, q)];
        var m := RunningMin(idx, q, lo, j, bound);
        assert RunningMin(idx, q, lo, lo + (n - 1), bound) == m;
        assert forall e <- prev :: m <= HitDiff(e.hit);
        assert HitDiff(OccurrenceHit(idx, j, q).hit) <= m;
        forall a, b | 0 <= a < b < |r| ensures HitDiff(r[b].hit) <= HitDiff(r[a].hit) {
          assert r[a] == prev[a];
          if b < |prev| {
            assert r[b] == prev[b];
          } else {
            assert r[b] == OccurrenceHit(idx, j, q);
            assert prev[a] in prev;
            assert m <= HitDiff(prev[a].hit);
          }
        }
      } else {
        assert r == prev;
        assert NonIncreasingDiffs(prev);
      }
    }
  }

  /** A run of one occurrence keeps it exactly when its difference is within the bound. */
  lemma SingleOccurrence(idx: StrobemerIndex, q: QueryRandstrobe, p: nat, bound: int)
    requires p < |idx.entries|
    ensures KeptHits(idx, q, p, 1, bound) == if Diff(idx, p, q) <= bound then [OccurrenceHit(idx, p, q)] else []
  {
    assert KeptHits(idx, q, p, 0, bound) == [];
  }

  // ---------------------------------------------------------------- add_to_hits_per_ref

  /**
   * `add_to_hits_per_ref`: visits the occurrences `position .. position + count - 1` in storage
   * order (one occurrence directly when the count is 1), keeps an occurrence when its difference
   * is at most the running minimum, which it then lowers, pushes the kept hits onto their
   * references' vectors and counts them in `tot_hits`.
   */
  method AddToHitsPerRef(hitsPerRef: seq<RefHit>, q: QueryRandstrobe, idx: StrobemerIndex, position: nat, minDiff: int, totHits: int)
    returns (hitsPerRef': seq<RefHit>, totHits': int)
    requires |idx.entries| < TwoTo32
    requires position < |idx.entries| && position + idx.GetCount(position) <= |idx.entries|
    ensures hitsPerRef' == hitsPerRef + KeptHits(idx, q, position, idx.GetCount(position), minDiff)
    ensures totHits' == totHits + (|hitsPerRef'| - |hitsPerRef|)
  {
    var count := idx.GetCount(position);
    var runningMin := minDiff;
    hitsPerRef' := hitsPerRef;
    totHits' := totHits;
    if count == 1 {
      var h := OccurrenceHit(idx, position, q);
      var diff := Diff(idx, position, q);
      SingleOccurrence(idx, q, position, minDiff);
      if diff <= runningMin {
        hitsPerRef' := hitsPerRef' + [h];
        runningMin := diff;
        totHits' := totHits' + 1;
      }
    } else {
      var j := position;
      while j < position + count
        invariant position <= j <= position + count
        invariant runningMin == RunningMin(idx, q, position, j, minDiff)
        invariant hitsPerRef' == hitsPerRef + KeptHits(idx, q, position, j - position, minDiff)
        invariant totHits' == totHits + (|hitsPerRef'| - |hitsPerRef|)
      {
        var h := OccurrenceHit(idx, j, q);
        var diff := Diff(idx, j, q);
        KeptIffWithinRunningMin(idx, q, position, j, minDiff);
        if diff <= runningMin {
          hitsPerRef' := hitsPerRef' + [h];
          runningMin := diff;
          totHits' := totHits' + 1;
        }
        j := j + 1;
      }
    }
  }

  // ---------------------------------------------------------------- the hash map of hit vectors

  /** The vector of reference `r`: its pushes, in order. */
  function GroupOf(tagged: seq<RefHit>, r: nat): seq<Hit>
  {
    if |tagged| == 0 then []
    else (if tagged[0].refId == r then [tagged[0].hit] else []) + GroupOf(tagged[1..], r)
  }

  /** The references that received at least one push: the keys of the map. */
  function Refs(tagged: seq<RefHit>): set<nat>
  {
    set e | e in tagged :: e.refId
  }

  /** The map from reference to its vector of hits. */
  function HitsPerRef(tagged: seq<RefHit>): (m: map<nat, seq<Hit>>)
    ensures m.Keys == Refs(tagged)
  {
    map r | r in Refs(tagged) :: GroupOf(tagged, r)
  }

  /** A push onto `hits_per_ref[r]` appends to the vector of `r` and to no other. */
  lemma {:induction false} PushOntoGroup(tagged: seq<RefHit>, e: RefHit, r: nat)
    ensures GroupOf(tagged + [e], r) == GroupOf(tagged, r) + (if e.refId == r then [e.hit] else [])
    decreases |tagged|
  {
    var extra := if e.refId == r then [e.hit] else [];
    if |tagged| == 0 {
      assert tagged + [e] == [e];
      assert GroupOf([e], r) == extra + GroupOf([], r);
    } else {
      var head := if tagged[0].refId == r then [tagged[0].hit] else [];
      assert (tagged + [e])[1..] == tagged[1..] + [e];
      assert GroupOf(tagged + [e], r) == head + GroupOf(tagged[1..] + [e], r);
      PushOntoGroup(tagged[1..], e, r);
      assert GroupOf(tagged, r) == head + GroupOf(tagged[1..], r);
    }
  }

  /** The number of pushes onto the references of `refs`. */
  function CountIn(tagged: seq<RefHit>, refs: set<nat>): nat
  {
    if |tagged| == 0 then 0 else (if tagged[0].refId in refs then 1 else 0) + CountIn(tagged[1..], refs)
  }

  lemma {:induction false} CountInSplit(tagged: seq<RefHit>, r: nat, refs: set<nat>)
    requires r !in refs
    ensures CountIn(tagged, refs + {r}) == |GroupOf(tagged, r)| + CountIn(tagged, refs)
    decreases |tagged|
  {
    if |tagged| > 0 {
      CountInSplit(tagged[1..], r, refs);
    }
  }

  lemma {:induction false} CountInAll(tagged: seq<RefHit>, refs: set<nat>)
    requires Refs(tagged) <= refs
    ensures CountIn(tagged, refs) == |tagged|
    decreases |tagged|
  {
    if |tagged| > 0 {
      assert tagged[0] in tagged;
      assert Refs(tagged[1..]) <= Refs(tagged) by {
        forall x | x in Refs(tagged[1..]) ensures x in Refs(tagged) {
          var e :| e in tagged[1..] && e.refId == x;
          assert e in tagged;
        }
      }
      CountInAll(tagged[1..], refs);
    }
  }

  lemma {:induction false} SumGroupsCount(tagged: seq<RefHit>, order: seq<nat>)
    requires Distinct(order) && Elements(order) <= Refs(tagged)
    ensures SumGroupSizes(HitsPerRef(tagged), order) == CountIn(tagged, Elements(order))
    decreases |order|
  {
    if |order| == 0 {
      assert Elements(order) == {};
      CountInNone(tagged);
    } else {
      var rest := order[1..];
      assert Distinct(rest);
      assert Elements(order) == Elements(rest) + {order[0]};
      assert order[0] !in Elements(rest);
      SumGroupsCount(tagged, rest);
      CountInSplit(tagged, order[0], Elements(rest));
    }
  }

  lemma {:induction false} CountInNone(tagged: seq<RefHit>)
    ensures CountIn(tagged, {}) == 0
    decreases |tagged|
  {
    if |tagged| > 0 {
      CountInNone(tagged[1..]);
    }
  }

  /**
   * Iterating the map in any order that lists each key once visits every pushed hit exactly
   * once: the vectors' sizes add up to the number of pushes.
   */
  lemma GroupsPartitionHits(tagged: seq<RefHit>, order: seq<nat>)
    requires Distinct(order) && Elements(order) == Refs(tagged)
    ensures SumGroupSizes(HitsPerRef(tagged), order) == |tagged|
  {
    SumGroupsCount(tagged, order);
    CountInAll(tagged, Elements(order));
  }

  // ---------------------------------------------------------------- find_nams

  /**
   * The hits one seed contributes: none when its hash is absent or occurs more often than the
   * filter cutoff, else the kept occurrences with the running minimum restarted at 100000.
   */
  function SeedHits(idx: StrobemerIndex, q: QueryRandstrobe): seq<RefHit>
    requires idx.WellFormed()
  {
    match idx.Find(q.hash)
    case None => []
    case Some(p) =>
      if idx.GetCount(p) > idx.filterCutoff then [] else KeptHits(idx, q, p, idx.GetCount(p), InitialMinDiff)
  }

  /** All pushes for a sequence of seeds, in order. */
  function AllHits(idx: StrobemerIndex, qs: seq<QueryRandstrobe>): seq<RefHit>
    requires idx.WellFormed()
  {
    if |qs| == 0 then [] else AllHits(idx, qs[..|qs| - 1]) + SeedHits(idx, qs[|qs| - 1])
  }

  /** The seeds whose hash the index holds (`total_hits`). */
  function FoundSeeds(idx: StrobemerIndex, qs: seq<QueryRandstrobe>): nat
  {
    if |qs| == 0 then 0 else FoundSeeds(idx, qs[..|qs| - 1]) + (if idx.Find(qs[|qs| - 1].hash).Some? then 1 else 0)
  }

  /** The found seeds whose count is within the filter cutoff (`nr_good_hits`). */
  predicate GoodSeed(idx: StrobemerIndex, q: QueryRandstrobe)
    requires idx.WellFormed()
  {
    match idx.Find(q.hash)
    case None => false
    case Some(p) => idx.GetCount(p) <= idx.filterCutoff
  }

  function GoodSeeds(idx: StrobemerIndex, qs: seq<QueryRandstrobe>): nat
    requires idx.WellFormed()
  {
    if |qs| == 0 then 0 else GoodSeeds(idx, qs[..|qs| - 1]) + (if GoodSeed(idx, qs[|qs| - 1]) then 1 else 0)
  }

  /** Good seeds are found seeds, so there are never more good seeds than found ones. */
  lemma {:induction false} GoodAtMostFound(idx: StrobemerIndex, qs: seq<QueryRandstrobe>)
    requires idx.WellFormed()
    ensures GoodSeeds(idx, qs) <= FoundSeeds(idx, qs) <= |qs|
    decreases |qs|
  {
    if |qs| > 0 {
      GoodAtMostFound(idx, qs[..|qs| - 1]);
    }
  }

  /** A seed that is absent or over the cutoff contributes no hit. */
  lemma OnlyGoodSeedsHit(idx: StrobemerIndex, q: QueryRandstrobe)
    requires idx.WellFormed()
    ensures !GoodSeed(idx, q) ==> SeedHits(idx, q) == []
    ensures |SeedHits(idx, q)| <= if GoodSeed(idx, q) then idx.GetCount(idx.lookup[q.hash]) else 0
  {
    if GoodSeed(idx, q) {
      KeptHitsCarry(idx, q, idx.lookup[q.hash], idx.GetCount(idx.lookup[q.hash]), InitialMinDiff);
    }
  }

  /**
   * The seed loop of `find_nams`: counts found and good seeds and collects the hits of the good
   * ones (`position != -1` is the test that `find` found the hash).
   */
  method CollectHits(qs: seq<QueryRandstrobe>, idx: StrobemerIndex)
    returns (hitsPerRef: seq<RefHit>, goodHits: nat, totalHits: nat, totHits: int)
    requires idx.WellFormed()
    ensures hitsPerRef == AllHits(idx, qs)
    ensures goodHits == GoodSeeds(idx, qs) && totalHits == FoundSeeds(idx, qs)
    ensures totHits == |hitsPerRef|
  {
    hitsPerRef := [];
    goodHits, totalHits, totHits := 0, 0, 0;
    var i := 0;
    while i < |qs|
      invariant 0 <= i <= |qs|
      invariant hitsPerRef == AllHits(idx, qs[..i])
      invariant goodHits == GoodSeeds(idx, qs[..i]) && totalHits == FoundSeeds(idx, qs[..i])
      invariant totHits == |hitsPerRef|
    {
      var q := qs[i];
      assert qs[..i + 1][..i] == qs[..i];
      var found := idx.Find(q.hash);
      if found.Some? {
        var position := found.value;
        totalHits := totalHits + 1;
        var count := idx.GetCount(position);
        if count <= idx.filterCutoff {
          goodHits := goodHits + 1;
          hitsPerRef, totHits := AddToHitsPerRef(hitsPerRef, q, idx, position, InitialMinDiff, totHits);
        }
      }
      i := i + 1;
    }
    assert qs[..|qs|] == qs;
  }

  /** Every seed's span is not reversed. */
  predicate SeedsWellFormed(qs: seq<QueryRandstrobe>)
  {
    forall i :: 0 <= i < |qs| ==> qs[i].start <= qs[i].end
  }

  /** With non-negative k and well-formed seeds, every pushed hit is well formed. */
  lemma {:induction false} AllHitsWellFormed(idx: StrobemerIndex, qs: seq<QueryRandstrobe>)
    requires idx.WellFormed() && idx.k >= 0 && SeedsWellFormed(qs)
    ensures forall e <- AllHits(idx, qs) :: WellFormedHit(e.hit)
    decreases |qs|
  {
    if |qs| > 0 {
      var last := qs[|qs| - 1];
      AllHitsWellFormed(idx, qs[..|qs| - 1]);
      if GoodSeed(idx, last) {
        var p := idx.lookup[last.hash];
        KeptHitsCarry(idx, last, p, idx.GetCount(p), InitialMinDiff);
        forall e <- SeedHits(idx, last) ensures WellFormedHit(e.hit) {
          KeptHitsOccur(idx, last, p, idx.GetCount(p), InitialMinDiff, e);
        }
      }
    }
  }

  /** Every kept hit is the hit of one of the run's occurrences. */
  lemma {:induction false} KeptHitsOccur(idx: StrobemerIndex, q: QueryRandstrobe, lo: nat, n: nat, bound: int, e: RefHit)
    requires lo + n <= |idx.entries|
    requires e in KeptHits(idx, q, lo, n, bound)
    ensures exists j :: lo <= j < lo + n && e == OccurrenceHit(idx, j, q)
    decreases n
  {
    if e !in KeptHits(idx, q, lo, n - 1, bound) {
      assert e == OccurrenceHit(idx, lo + n - 1, q);
    } else {
      KeptHitsOccur(idx, q, lo, n - 1, bound, e);
    }
  }

  /** The map-group lookup of a pushed hit's reference. */
  lemma HitsOfGroupsAreWellFormed(tagged: seq<RefHit>)
    requires forall e <- tagged :: WellFormedHit(e.hit)
    ensures GroupsWellFormed(HitsPerRef(tagged))
  {
    forall r <- HitsPerRef(tagged) ensures AllWellFormed(HitsPerRef(tagged)[r]) {
      GroupOfWellFormed(tagged, r);
    }
  }

  lemma {:induction false} GroupOfWellFormed(tagged: seq<RefHit>, r: nat)
    requires forall e <- tagged :: WellFormedHit(e.hit)
    ensures AllWellFormed(GroupOf(tagged, r))
    decreases |tagged|
  {
    if |tagged| > 0 {
      assert tagged[0] in tagged;
      GroupOfWellFormed(tagged[1..], r);
    }
  }

  /**
   * The NAMs merged from a read's hits: identifiers 0 .. n - 1, every pushed hit counted in exactly
   * one NAM, every score at least 1, every NAM on a reference that received hits and starting at
   * one of that reference's hits, and with well-formed seeds every NAM keeps its shape.
   */
  lemma MergedNamsFacts(idx: StrobemerIndex, qs: seq<QueryRandstrobe>, order: seq<nat>)
    requires idx.WellFormed()
    requires Distinct(order) && Elements(order) == Refs(AllHits(idx, qs))
    ensures var tagged := AllHits(idx, qs);
      var nams := MergeHitsIntoNams(HitsPerRef(tagged), order, idx.k, false);
      && multiset(Ids(nams)) == multiset(Range(0, |nams|))
      && SumHits(nams) == |tagged|
      && (forall n <- nams :: n.score >= 1 && n.refId in Refs(tagged))
      && (forall n <- nams :: HasOrigin(n, GroupOf(tagged, n.refId), n.refId))
      && (idx.k >= 0 && SeedsWellFormed(qs) ==> forall n <- nams :: NamShape(n))
  {
    var tagged := AllHits(idx, qs);
    GroupsPartitionHits(tagged, order);
    if idx.k >= 0 && SeedsWellFormed(qs) {
      AllHitsWellFormed(idx, qs);
      HitsOfGroupsAreWellFormed(tagged);
    }
  }

  /**
   * `find_nams`: the fraction of found seeds that are within the filter cutoff (1 when none is
   * found) and the NAMs merged from the collected hits, the map's groups visited in `order`.
   * Every accepted occurrence is counted in exactly one NAM, the NAM identifiers are 0 .. n - 1,
   * every score is at least 1, and every NAM lies on a reference that received hits and starts at
   * one of that reference's hits.
   */
  method FindNams(qs: seq<QueryRandstrobe>, idx: StrobemerIndex, order: seq<nat>)
    returns (nonrepetitiveFraction: real, nams: seq<Nam>)
    requires idx.WellFormed()
    requires Distinct(order) && Elements(order) == Refs(AllHits(idx, qs))
    ensures 0.0 <= nonrepetitiveFraction <= 1.0
    ensures FoundSeeds(idx, qs) == 0 ==> nonrepetitiveFraction == 1.0
    ensures FoundSeeds(idx, qs) > 0 ==> nonrepetitiveFraction == (GoodSeeds(idx, qs) as real) / (FoundSeeds(idx, qs) as real)
    ensures nonrepetitiveFraction == 1.0 <==> GoodSeeds(idx, qs) == FoundSeeds(idx, qs)
    ensures multiset(Ids(nams)) == multiset(Range(0, |nams|))
    ensures SumHits(nams) == |AllHits(idx, qs)|
    ensures forall n <- nams :: n.score >= 1 && n.refId in Refs(AllHits(idx, qs))
    ensures forall n <- nams :: HasOrigin(n, GroupOf(AllHits(idx, qs), n.refId), n.refId)
    ensures idx.k >= 0 && SeedsWellFormed(qs) ==> forall n <- nams :: NamShape(n)
  {
    var hitsPerRef, goodHits, totalHits, totHits := CollectHits(qs, idx);
    GoodAtMostFound(idx, qs);
    nonrepetitiveFraction := Fraction(goodHits, totalHits);
    nams := MergeHitsIntoNams(HitsPerRef(hitsPerRef), order, idx.k, false);
    MergedNamsFacts(idx, qs, order);
  }

  /** `good / total` as a fraction of found seeds, or 1 when no seed was found. */
  function Fraction(good: nat, total: nat): (f: real)
    requires good <= total
    ensures 0.0 <= f <= 1.0
    ensures total == 0 ==> f == 1.0
    ensures total > 0 ==> f == (good as real) / (total as real) && f * (total as real) == good as real
    ensures f == 1.0 <==> good == total
  {
    if total > 0 then
      var f := (good as real) / (total as real);
      RatioFacts(good as real, total as real, f);
      f
    else 1.0
  }

  lemma RatioFacts(good: real, total: real, f: real)
    requires 0.0 <= good <= total && total > 0.0
    requires f == good / total
    ensures 0.0 <= f <= 1.0
    ensures f * total == good
    ensures f == 1.0 <==> good == total
  {
    assert f * total == good;
    if f == 1.0 {
      assert good == 1.0 * total;
    }
  }
}
