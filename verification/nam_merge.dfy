/**
 * Merging one read's hits into NAMs: per reference, a sweep over the hits in stored order that
 * keeps an ordered list of open NAMs. A hit extends the first open NAM it is colinear with, or
 * opens a new one; once the query position has moved more than k past the last checkpoint, the
 * open NAMs the hit has passed are scored and emitted. At the end of the reference every open
 * NAM is scored and emitted. Identifiers are handed out in creation order across all references.
 */
module NamMerge {
  import opened Base
  import opened NamTypes
  import opened Sorting

  // ---------------------------------------------------------------- extension and creation

  /**
   * The colinearity test: the hit starts strictly after the NAM's last hit on the query and not
   * before it on the reference, and inside the NAM's current spans. Strands are not compared.
   */
  predicate Extends(o: Nam, h: Hit)
  {
    o.queryPrevHitStartpos < h.queryS <= o.queryE && o.refPrevHitStartpos <= h.refS <= o.refE
  }

  /** `b` is a later state of NAM `a`: identity, starts, reference and strand fixed; ends and hit count only grow. */
  predicate Evolves(a: Nam, b: Nam)
  {
    && b.namId == a.namId && b.queryS == a.queryS && b.refS == a.refS
    && b.refId == a.refId && b.isRc == a.isRc
    && b.queryE >= a.queryE && b.refE >= a.refE && b.nHits >= a.nHits
  }

  /** Extending an open NAM by a colinear hit. */
  function Extend(o: Nam, h: Hit): (r: Nam)
    requires Extends(o, h)
    ensures Evolves(o, r) && r.nHits == o.nHits + 1
    ensures r.queryE >= h.queryE && r.refE >= h.refE
    ensures r.queryPrevHitStartpos == h.queryS && r.refPrevHitStartpos == h.refS
    ensures NamShape(o) ==> NamShape(r)
  {
    o.(queryE := Max(o.queryE, h.queryE),
       refE := Max(o.refE, h.refE),
       queryPrevHitStartpos := h.queryS,
       refPrevHitStartpos := h.refS,
       nHits := o.nHits + 1)
  }

  /** The NAM a hit opens when no open NAM accepts it. */
  function NewNam(id: int, h: Hit, refId: nat): (r: Nam)
    ensures r.namId == id && r.nHits == 1 && r.refId == refId
    ensures r.queryS == h.queryS && r.refS == h.refS && r.isRc == h.isRc
    ensures WellFormedHit(h) ==> NamShape(r)
  {
    Nam(id, h.queryS, h.queryE, h.queryS, h.refS, h.refE, h.refS, 1, refId, h.isRc, 0)
  }

  /** The position of the first open NAM the hit extends (first match wins). */
  function FirstExtendable(open: seq<Nam>, h: Hit): (r: Option<nat>)
    ensures r.Some? ==> r.value < |open| && Extends(open[r.value], h)
    ensures r.Some? ==> forall j :: 0 <= j < r.value ==> !Extends(open[j], h)
    ensures r.None? <==> forall j :: 0 <= j < |open| ==> !Extends(open[j], h)
  {
    if |open| == 0 then None
    else if Extends(open[0], h) then Some(0)
    else match FirstExtendable(open[1..], h)
      case None => None
      case Some(i) => Some(i + 1)
  }

  // ---------------------------------------------------------------- scoring

  /**
   * The score: the hit count times twice the shorter span minus the longer one, or 1 when that
   * is not positive. (The source stores it in a float; the value is an integer.)
   */
  function Finalize(n: Nam): (r: Nam)
    ensures r == n.(score := r.score)
    ensures n.nHits >= 1 ==> r.score >= 1
    ensures n.nHits >= 0 ==> r.score <= Max(1, n.nHits * Min(n.QuerySpan(), n.RefSpan()))
    ensures 2 * Min(n.QuerySpan(), n.RefSpan()) <= Max(n.QuerySpan(), n.RefSpan()) ==> r.score == 1
    ensures n.nHits >= 0 ==> r.score >= n.nHits * (2 * Min(n.QuerySpan(), n.RefSpan()) - Max(n.QuerySpan(), n.RefSpan()))
  {
    var maxSpan := Max(n.QuerySpan(), n.RefSpan());
    var minSpan := Min(n.QuerySpan(), n.RefSpan());
    var score := if 2 * minSpan - maxSpan > 0 then n.nHits * (2 * minSpan - maxSpan) else 1;
    ScoreBound(n.nHits, minSpan, maxSpan);
    n.(score := score)
  }

  lemma ScoreBound(nHits: int, minSpan: int, maxSpan: int)
    requires minSpan <= maxSpan
    ensures nHits >= 1 && 2 * minSpan - maxSpan > 0 ==> nHits * (2 * minSpan - maxSpan) >= 1
    ensures nHits >= 0 && 2 * minSpan - maxSpan > 0 ==> nHits * (2 * minSpan - maxSpan) <= nHits * minSpan
    ensures nHits >= 0 && 2 * minSpan - maxSpan <= 0 ==> nHits * (2 * minSpan - maxSpan) <= 0
  {
    if nHits >= 0 && 2 * minSpan - maxSpan > 0 {
      assert nHits * (2 * minSpan - maxSpan) == nHits * minSpan - nHits * (maxSpan - minSpan);
      assert nHits * (maxSpan - minSpan) >= 0;
    }
  }

  /** A NAM of one hit whose spans leave `2 * min_span - max_span` positive scores exactly that amount. */
  lemma FinalizeOneHit(n: Nam)
    requires n.nHits == 1
    requires 2 * Min(n.QuerySpan(), n.RefSpan()) - Max(n.QuerySpan(), n.RefSpan()) > 0
    ensures Finalize(n).score == 2 * Min(n.QuerySpan(), n.RefSpan()) - Max(n.QuerySpan(), n.RefSpan())
  {
  }

  /**
   * With the spans fixed and `2 * min_span - max_span` positive, every further hit adds exactly
   * `2 * min_span - max_span` to the score: with `FinalizeOneHit`, the score is that amount
   * times the hit count.
   */
  lemma FinalizePerHit(n: Nam)
    requires n.nHits >= 1
    requires 2 * Min(n.QuerySpan(), n.RefSpan()) - Max(n.QuerySpan(), n.RefSpan()) > 0
    ensures Finalize(n.(nHits := n.nHits + 1)).score
         == Finalize(n).score + (2 * Min(n.QuerySpan(), n.RefSpan()) - Max(n.QuerySpan(), n.RefSpan()))
  {
    var d := 2 * Min(n.QuerySpan(), n.RefSpan()) - Max(n.QuerySpan(), n.RefSpan());
    assert (n.nHits + 1) * d == n.nHits * d + d;
  }

  /** Scoring every NAM of a sequence, in order. */
  function FinalizeAll(s: seq<Nam>): (r: seq<Nam>)
    ensures |r| == |s|
    ensures forall i :: 0 <= i < |s| ==> r[i] == Finalize(s[i])
  {
    seq(|s|, i requires 0 <= i < |s| => Finalize(s[i]))
  }

  // ---------------------------------------------------------------- flushing

  /** The open NAMs the hit at query position q has passed (query end before q), in order. */
  function Passed(s: seq<Nam>, q: int): seq<Nam>
  {
    if |s| == 0 then []
    else if s[0].queryE < q then [s[0]] + Passed(s[1..], q)
    else Passed(s[1..], q)
  }

  /** The open NAMs that stay open, in order (the stable `remove_if` of the same predicate). */
  function Survivors(s: seq<Nam>, q: int): seq<Nam>
  {
    if |s| == 0 then []
    else if s[0].queryE < q then Survivors(s[1..], q)
    else [s[0]] + Survivors(s[1..], q)
  }

  // ---------------------------------------------------------------- the sweep

  /**
   * The sweep state for one reference: the open NAMs, the last checkpoint `prev_q_start`
   * (an `unsigned int`), the NAMs emitted so far and the next identifier.
   */
  datatype Sweep = Sweep(open: seq<Nam>, prevQStart: u32, nams: seq<Nam>, nextId: int)

  /**
   * Whether the hit triggers a flush: `h.query_s > prev_q_start + k`, where the comparison is
   * between unsigned values, so `h.query_s` and `k` are converted and the sum wraps.
   */
  predicate FlushDue(st: Sweep, h: Hit, k: int)
  {
    ToU32(h.queryS) > ToU32(st.prevQStart + k)
  }

  /**
   * Without wrap-around (the checkpoint plus k still fits in 32 bits, the hit's start is a valid
   * `unsigned int`), the unsigned comparison is the plain one.
   */
  lemma FlushDueWithoutWrap(st: Sweep, h: Hit, k: int)
    requires 0 <= h.queryS < TwoTo32 && 0 <= st.prevQStart + k < TwoTo32
    ensures FlushDue(st, h, k) <==> h.queryS > st.prevQStart + k
  {
  }

  /** The open list after the hit is added: the first colinear NAM extended, or a new NAM appended. */
  function AddHit(open: seq<Nam>, h: Hit, refId: nat, nextId: int): seq<Nam>
  {
    match FirstExtendable(open, h)
    case Some(i) => open[i := Extend(open[i], h)]
    case None => open + [NewNam(nextId, h, refId)]
  }

  /** One iteration of the sweep over a reference's hits. */
  function ProcessHit(st: Sweep, h: Hit, refId: nat, k: int): Sweep
  {
    var open := AddHit(st.open, h, refId, st.nextId);
    var nextId := if FirstExtendable(st.open, h).Some? then st.nextId else st.nextId + 1;
    if FlushDue(st, h, k) then
      Sweep(Survivors(open, h.queryS), ToU32(h.queryS), st.nams + FinalizeAll(Passed(open, h.queryS)), nextId)
    else
      Sweep(open, st.prevQStart, st.nams, nextId)
  }

  /** The sweep over a sequence of hits, in stored order. */
  function SweepHits(st: Sweep, hits: seq<Hit>, refId: nat, k: int): Sweep
    decreases |hits|
  {
    if |hits| == 0 then st else SweepHits(ProcessHit(st, hits[0], refId, k), hits[1..], refId, k)
  }


  /**
   * A flush happens only when the hit has moved past the checkpoint by more than k; it moves the
   * checkpoint to the hit, emits (scored) exactly NAMs ending before the hit and keeps open only
   * NAMs reaching it. Without a flush the checkpoint and the emitted NAMs stay as they were.
   */
  lemma ProcessHitFlush(st: Sweep, h: Hit, refId: nat, k: int)
    ensures var r := ProcessHit(st, h, refId, k);
      FlushDue(st, h, k) ==>
        && r.prevQStart == ToU32(h.queryS)
        && |r.nams| >= |st.nams| && r.nams[..|st.nams|] == st.nams
        && (forall n <- r.nams[|st.nams|..] :: n.queryE < h.queryS)
        && (forall n <- r.open :: n.queryE >= h.queryS)
    ensures var r := ProcessHit(st, h, refId, k);
      !FlushDue(st, h, k) ==>
        r.prevQStart == st.prevQStart && r.nams == st.nams && r.open == AddHit(st.open, h, refId, st.nextId)
  {
    var open := AddHit(st.open, h, refId, st.nextId);
    var r := ProcessHit(st, h, refId, k);
    if FlushDue(st, h, k) {
      SplitMembers(open, h.queryS);
      var emitted := FinalizeAll(Passed(open, h.queryS));
      assert r.nams == st.nams + emitted;
      assert r.nams[|st.nams|..] == emitted;
      forall n <- emitted
        ensures n.queryE < h.queryS
      {
        var i :| 0 <= i < |emitted| && emitted[i] == n;
        assert Passed(open, h.queryS)[i] in Passed(open, h.queryS);
      }
    }
  }

  // ---------------------------------------------------------------- invariant of the sweep

  /** The NAM lies on reference `refId` and starts where some processed hit starts, on that hit's strand. */
  predicate HasOrigin(n: Nam, done: seq<Hit>, refId: nat)
  {
    && n.refId == refId
    && exists j :: 0 <= j < |done| && n.queryS == done[j].queryS && n.refS == done[j].refS && n.isRc == done[j].isRc
  }

  predicate AllWellFormed(hits: seq<Hit>)
  {
    forall j :: 0 <= j < |hits| ==> WellFormedHit(hits[j])
  }

  /** Every identifier from `firstId` to `nextId` is held by exactly one NAM; open NAMs are in creation order. */
  ghost predicate IdInv(open: seq<Nam>, nams: seq<Nam>, firstId: int, nextId: int)
  {
    && firstId <= nextId
    && multiset(Ids(nams)) + multiset(Ids(open)) == multiset(Range(firstId, nextId))
    && Increasing(Ids(open))
  }

  /** Every one of `count` processed hits is counted in exactly one NAM. */
  predicate CountInv(open: seq<Nam>, nams: seq<Nam>, count: int)
  {
    SumHits(nams) + SumHits(open) == count
  }

  /** Open NAMs hold a hit, start at one of the hits, and with well-formed hits keep their shape. */
  predicate OpenOk(open: seq<Nam>, done: seq<Hit>, refId: nat)
  {
    forall n <- open :: n.nHits >= 1 && HasOrigin(n, done, refId) && (AllWellFormed(done) ==> NamShape(n))
  }

  /** Emitted NAMs are open NAMs that have been scored. */
  predicate EmittedOk(nams: seq<Nam>, done: seq<Hit>, refId: nat)
  {
    forall n <- nams :: n.nHits >= 1 && n.score >= 1 && HasOrigin(n, done, refId) && (AllWellFormed(done) ==> NamShape(n))
  }

  /**
   * What holds after the hits `done` of reference `refId` have been swept, identifiers having
   * started at `firstId`: every identifier handed out is held by exactly one NAM, open or emitted;
   * open NAMs are in creation order; every processed hit is counted in exactly one NAM; every NAM
   * starts at one of the hits; emitted NAMs are scored; and with well-formed hits every NAM keeps
   * its coordinate ordering.
   */
  ghost predicate GroupInv(st: Sweep, refId: nat, firstId: int, done: seq<Hit>)
  {
    && IdInv(st.open, st.nams, firstId, st.nextId)
    && CountInv(st.open, st.nams, |done|)
    && OpenOk(st.open, done, refId)
    && EmittedOk(st.nams, done, refId)
  }

  lemma HasOriginGrows(n: Nam, done: seq<Hit>, h: Hit, refId: nat)
    requires HasOrigin(n, done, refId)
    ensures HasOrigin(n, done + [h], refId)
  {
    var j :| 0 <= j < |done| && n.queryS == done[j].queryS && n.refS == done[j].refS && n.isRc == done[j].isRc;
    assert (done + [h])[j] == done[j];
  }

  /** Splitting the open list into passed NAMs and survivors loses and duplicates no identifier. */
  lemma {:induction false} SplitIds(s: seq<Nam>, q: int)
    ensures multiset(Ids(Passed(s, q))) + multiset(Ids(Survivors(s, q))) == multiset(Ids(s))
    decreases |s|
  {
    if |s| > 0 {
      SplitIds(s[1..], q);
      IdsCons(s);
      if s[0].queryE < q {
        IdsCons(Passed(s, q));
        assert Passed(s, q)[1..] == Passed(s[1..], q);
        assert Survivors(s, q) == Survivors(s[1..], q);
      } else {
        IdsCons(Survivors(s, q));
        assert Survivors(s, q)[1..] == Survivors(s[1..], q);
        assert Passed(s, q) == Passed(s[1..], q);
      }
    }
  }

  /** Splitting the open list into passed NAMs and survivors keeps the total hit count. */
  lemma {:induction false} SplitHits(s: seq<Nam>, q: int)
    ensures SumHits(Passed(s, q)) + SumHits(Survivors(s, q)) == SumHits(s)
    decreases |s|
  {
    if |s| > 0 {
      SplitHits(s[1..], q);
      if s[0].queryE < q {
        assert ([s[0]] + Passed(s[1..], q))[1..] == Passed(s[1..], q);
      } else {
        assert ([s[0]] + Survivors(s[1..], q))[1..] == Survivors(s[1..], q);
      }
    }
  }

  /** Passed NAMs are open NAMs ending before q; survivors are open NAMs ending at or after q. */
  lemma {:induction false} SplitMembers(s: seq<Nam>, q: int)
    ensures forall x <- Passed(s, q) :: x in s && x.queryE < q
    ensures forall x <- Survivors(s, q) :: x in s && x.queryE >= q
    decreases |s|
  {
    if |s| > 0 {
      SplitMembers(s[1..], q);
    }
  }

  /** The tail of an increasing identifier list is increasing and above its head. */
  lemma IncreasingTail(s: seq<Nam>)
    requires |s| > 0 && Increasing(Ids(s))
    ensures Increasing(Ids(s[1..]))
    ensures forall n <- s[1..] :: s[0].namId < n.namId
  {
    forall n <- s[1..] ensures s[0].namId < n.namId {
      var m :| 0 <= m < |s[1..]| && s[1..][m] == n;
      assert Ids(s)[0] < Ids(s)[m + 1];
    }
  }

  /** A NAM below every identifier of an increasing list can go in front of it. */
  lemma IncreasingCons(x: Nam, rest: seq<Nam>)
    requires Increasing(Ids(rest))
    requires forall n <- rest :: x.namId < n.namId
    ensures Increasing(Ids([x] + rest))
  {
    var r := [x] + rest;
    forall i, j | 0 <= i < j < |r| ensures Ids(r)[i] < Ids(r)[j] {
      assert r[j] == rest[j - 1];
      if i > 0 {
        assert r[i] == rest[i - 1];
      } else {
        assert r[j] in rest;
      }
    }
  }

  /** Survivors keep their relative order, so their identifiers stay increasing. */
  lemma {:induction false} SurvivorsIncreasing(s: seq<Nam>, q: int)
    requires Increasing(Ids(s))
    ensures Increasing(Ids(Survivors(s, q)))
    decreases |s|
  {
    if |s| > 0 {
      IncreasingTail(s);
      SurvivorsIncreasing(s[1..], q);
      if s[0].queryE >= q {
        SplitMembers(s[1..], q);
        IncreasingCons(s[0], Survivors(s[1..], q));
      }
    }
  }

  lemma FinalizeAllFacts(s: seq<Nam>)
    ensures Ids(FinalizeAll(s)) == Ids(s)
    ensures SumHits(FinalizeAll(s)) == SumHits(s)
  {
    SumHitsFinalize(s);
  }

  lemma {:induction false} SumHitsFinalize(s: seq<Nam>)
    ensures SumHits(FinalizeAll(s)) == SumHits(s)
    decreases |s|
  {
    if |s| > 0 {
      assert FinalizeAll(s)[1..] == FinalizeAll(s[1..]);
      SumHitsFinalize(s[1..]);
    }
  }

  lemma {:induction false} SumHitsUpdate(s: seq<Nam>, i: nat, x: Nam)
    requires i < |s|
    ensures SumHits(s[i := x]) == SumHits(s) - s[i].nHits + x.nHits
    decreases |s|
  {
    if i > 0 {
      assert s[i := x][1..] == s[1..][i - 1 := x];
      SumHitsUpdate(s[1..], i - 1, x);
    } else {
      assert s[i := x][1..] == s[1..];
    }
  }

  lemma AllWellFormedPrefix(done: seq<Hit>, h: Hit)
    requires AllWellFormed(done + [h])
    ensures AllWellFormed(done) && WellFormedHit(h)
  {
    assert (done + [h])[|done|] == h;
    forall j | 0 <= j < |done| ensures WellFormedHit(done[j]) {
      assert (done + [h])[j] == done[j];
    }
  }

  lemma LastHasOrigin(n: Nam, done: seq<Hit>, h: Hit, refId: nat)
    requires n.refId == refId && n.queryS == h.queryS && n.refS == h.refS && n.isRc == h.isRc
    ensures HasOrigin(n, done + [h], refId)
  {
    assert (done + [h])[|done|] == h;
  }

  /** The emitted NAMs keep their properties when one more hit has been processed. */
  lemma EmittedGrow(nams: seq<Nam>, done: seq<Hit>, h: Hit, refId: nat)
    requires EmittedOk(nams, done, refId)
    ensures EmittedOk(nams, done + [h], refId)
  {
    if AllWellFormed(done + [h]) {
      AllWellFormedPrefix(done, h);
    }
    forall n <- nams
      ensures HasOrigin(n, done + [h], refId)
    {
      HasOriginGrows(n, done, h, refId);
    }
  }

  // ---------------------------------------------------------------- extending an open NAM

  lemma ExtendIds(open: seq<Nam>, nams: seq<Nam>, i: nat, x: Nam, firstId: int, nextId: int)
    requires IdInv(open, nams, firstId, nextId)
    requires i < |open| && x.namId == open[i].namId
    ensures IdInv(open[i := x], nams, firstId, nextId)
  {
    assert Ids(open[i := x]) == Ids(open);
  }

  lemma ExtendCount(open: seq<Nam>, nams: seq<Nam>, i: nat, x: Nam, count: int)
    requires CountInv(open, nams, count)
    requires i < |open| && x.nHits == open[i].nHits + 1
    ensures CountInv(open[i := x], nams, count + 1)
  {
    SumHitsUpdate(open, i, x);
  }

  lemma ExtendOpen(open: seq<Nam>, h: Hit, i: nat, refId: nat, done: seq<Hit>)
    requires OpenOk(open, done, refId)
    requires i < |open| && Extends(open[i], h)
    ensures OpenOk(open[i := Extend(open[i], h)], done + [h], refId)
  {
    var done' := done + [h];
    var open' := open[i := Extend(open[i], h)];
    if AllWellFormed(done') {
      AllWellFormedPrefix(done, h);
    }
    forall m | 0 <= m < |open'|
      ensures open'[m].nHits >= 1 && HasOrigin(open'[m], done', refId)
      ensures AllWellFormed(done') ==> NamShape(open'[m])
    {
      assert open[m] in open;
      HasOriginGrows(open[m], done, h, refId);
    }
  }

  /** Extending the first colinear open NAM keeps the invariant, with the hit counted. */
  lemma ExtendInv(st: Sweep, h: Hit, i: nat, refId: nat, firstId: int, done: seq<Hit>)
    requires GroupInv(st, refId, firstId, done)
    requires i < |st.open| && Extends(st.open[i], h)
    ensures GroupInv(Sweep(st.open[i := Extend(st.open[i], h)], st.prevQStart, st.nams, st.nextId),
                     refId, firstId, done + [h])
  {
    var x := Extend(st.open[i], h);
    ExtendIds(st.open, st.nams, i, x, firstId, st.nextId);
    ExtendCount(st.open, st.nams, i, x, |done|);
    ExtendOpen(st.open, h, i, refId, done);
    EmittedGrow(st.nams, done, h, refId);
  }

  // ---------------------------------------------------------------- opening a NAM

  /** Appending a NAM with the next identifier extends the identifier range and keeps creation order. */
  lemma FreshIds(open: seq<Nam>, nams: seq<Nam>, x: Nam, firstId: int, nextId: int)
    requires IdInv(open, nams, firstId, nextId)
    requires x.namId == nextId
    ensures IdInv(open + [x], nams, firstId, nextId + 1)
  {
    IdsAppend(open, [x]);
    RangeSnoc(firstId, nextId);
    forall j | 0 <= j < |open|
      ensures open[j].namId < nextId
    {
      assert open[j].namId in multiset(Ids(open));
      assert open[j].namId in multiset(Range(firstId, nextId));
    }
  }

  lemma FreshCount(open: seq<Nam>, nams: seq<Nam>, x: Nam, count: int)
    requires CountInv(open, nams, count)
    requires x.nHits == 1
    ensures CountInv(open + [x], nams, count + 1)
  {
    SumHitsAppend(open, [x]);
    assert [x][1..] == [];
  }

  /** The open NAMs keep their properties when a NAM opened by the next hit is appended. */
  lemma FreshOpen(open: seq<Nam>, h: Hit, x: Nam, refId: nat, done: seq<Hit>)
    requires OpenOk(open, done, refId)
    requires x == NewNam(x.namId, h, refId)
    ensures OpenOk(open + [x], done + [h], refId)
  {
    if AllWellFormed(done + [h]) {
      AllWellFormedPrefix(done, h);
    }
    LastHasOrigin(x, done, h, refId);
    forall n <- open + [x]
      ensures n.nHits >= 1 && HasOrigin(n, done + [h], refId)
    {
      if n != x {
        HasOriginGrows(n, done, h, refId);
      }
    }
  }

  /** Opening a new NAM for the hit keeps the invariant, with the next identifier handed out. */
  lemma OpenInv(st: Sweep, h: Hit, refId: nat, firstId: int, done: seq<Hit>)
    requires GroupInv(st, refId, firstId, done)
    ensures GroupInv(Sweep(st.open + [NewNam(st.nextId, h, refId)], st.prevQStart, st.nams, st.nextId + 1),
                     refId, firstId, done + [h])
  {
    var x := NewNam(st.nextId, h, refId);
    FreshIds(st.open, st.nams, x, firstId, st.nextId);
    FreshCount(st.open, st.nams, x, |done|);
    FreshOpen(st.open, h, x, refId, done);
    EmittedGrow(st.nams, done, h, refId);
  }

  // ---------------------------------------------------------------- flushing passed NAMs

  lemma FlushIds(open: seq<Nam>, nams: seq<Nam>, q: int, firstId: int, nextId: int)
    requires IdInv(open, nams, firstId, nextId)
    ensures IdInv(Survivors(open, q), nams + FinalizeAll(Passed(open, q)), firstId, nextId)
  {
    var emitted := FinalizeAll(Passed(open, q));
    SplitIds(open, q);
    SurvivorsIncreasing(open, q);
    FinalizeAllFacts(Passed(open, q));
    IdsAppend(nams, emitted);
  }

  lemma FlushCount(open: seq<Nam>, nams: seq<Nam>, q: int, count: int)
    requires CountInv(open, nams, count)
    ensures CountInv(Survivors(open, q), nams + FinalizeAll(Passed(open, q)), count)
  {
    var emitted := FinalizeAll(Passed(open, q));
    SplitHits(open, q);
    FinalizeAllFacts(Passed(open, q));
    SumHitsAppend(nams, emitted);
  }

  lemma FlushOpen(open: seq<Nam>, q: int, refId: nat, done: seq<Hit>)
    requires OpenOk(open, done, refId)
    ensures OpenOk(Survivors(open, q), done, refId)
  {
    SplitMembers(open, q);
  }

  /** Scoring open NAMs makes them emitted NAMs. */
  lemma ScoredOpen(open: seq<Nam>, nams: seq<Nam>, refId: nat, done: seq<Hit>)
    requires OpenOk(open, done, refId) && EmittedOk(nams, done, refId)
    ensures EmittedOk(nams + FinalizeAll(open), done, refId)
  {
    var emitted := FinalizeAll(open);
    forall n <- nams + emitted
      ensures n.nHits >= 1 && n.score >= 1 && HasOrigin(n, done, refId)
      ensures AllWellFormed(done) ==> NamShape(n)
    {
      if n !in nams {
        var m :| 0 <= m < |emitted| && emitted[m] == n;
        assert open[m] in open;
      }
    }
  }

  lemma FlushEmitted(open: seq<Nam>, nams: seq<Nam>, q: int, refId: nat, done: seq<Hit>)
    requires OpenOk(open, done, refId) && EmittedOk(nams, done, refId)
    ensures EmittedOk(nams + FinalizeAll(Passed(open, q)), done, refId)
  {
    SplitMembers(open, q);
    ScoredOpen(Passed(open, q), nams, refId, done);
  }

  /** Emitting the passed NAMs and keeping the survivors keeps the invariant. */
  lemma FlushInv(st: Sweep, q: int, checkpoint: u32, refId: nat, firstId: int, done: seq<Hit>)
    requires GroupInv(st, refId, firstId, done)
    ensures GroupInv(Sweep(Survivors(st.open, q), checkpoint, st.nams + FinalizeAll(Passed(st.open, q)), st.nextId),
                     refId, firstId, done)
  {
    FlushIds(st.open, st.nams, q, firstId, st.nextId);
    FlushCount(st.open, st.nams, q, |done|);
    FlushOpen(st.open, q, refId, done);
    FlushEmitted(st.open, st.nams, q, refId, done);
  }

  // ---------------------------------------------------------------- one hit, then all hits

  /** Adding a hit to the open list keeps the invariant, with the hit counted. */
  lemma AddHitInv(st: Sweep, h: Hit, refId: nat, firstId: int, done: seq<Hit>)
    requires GroupInv(st, refId, firstId, done)
    ensures GroupInv(Sweep(AddHit(st.open, h, refId, st.nextId), st.prevQStart, st.nams,
                           if FirstExtendable(st.open, h).Some? then st.nextId else st.nextId + 1),
                     refId, firstId, done + [h])
  {
    match FirstExtendable(st.open, h)
    case Some(i) => ExtendInv(st, h, i, refId, firstId, done);
    case None => OpenInv(st, h, refId, firstId, done);
  }

  lemma ProcessHitInv(st: Sweep, h: Hit, refId: nat, k: int, firstId: int, done: seq<Hit>)
    requires GroupInv(st, refId, firstId, done)
    ensures GroupInv(ProcessHit(st, h, refId, k), refId, firstId, done + [h])
  {
    var mid := Sweep(AddHit(st.open, h, refId, st.nextId), st.prevQStart, st.nams,
                     if FirstExtendable(st.open, h).Some? then st.nextId else st.nextId + 1);
    AddHitInv(st, h, refId, firstId, done);
    if FlushDue(st, h, k) {
      FlushInv(mid, h.queryS, ToU32(h.queryS), refId, firstId, done + [h]);
    }
  }

  lemma ConsAppend<T>(done: seq<T>, xs: seq<T>)
    requires |xs| > 0
    ensures done + [xs[0]] + xs[1..] == done + xs
  {
  }

  lemma {:induction false} SweepHitsInv(st: Sweep, hits: seq<Hit>, refId: nat, k: int, firstId: int, done: seq<Hit>)
    requires GroupInv(st, refId, firstId, done)
    ensures GroupInv(SweepHits(st, hits, refId, k), refId, firstId, done + hits)
    decreases |hits|
  {
    if |hits| == 0 {
      assert done + hits == done;
    } else {
      var h := hits[0];
      var next := ProcessHit(st, h, refId, k);
      ProcessHitInv(st, h, refId, k, firstId, done);
      SweepHitsInv(next, hits[1..], refId, k, firstId, done + [h]);
      ConsAppend(done, hits);
    }
  }


  /** Scoring and emitting the NAMs still open at the end of a reference. */
  lemma FinishFacts(st: Sweep, refId: nat, firstId: int, done: seq<Hit>)
    requires GroupInv(st, refId, firstId, done)
    ensures var out := st.nams + FinalizeAll(st.open);
      && multiset(Ids(out)) == multiset(Range(firstId, st.nextId))
      && SumHits(out) == |done|
      && EmittedOk(out, done, refId)
  {
    var tail := FinalizeAll(st.open);
    FinalizeAllFacts(st.open);
    IdsAppend(st.nams, tail);
    SumHitsAppend(st.nams, tail);
    ScoredOpen(st.open, st.nams, refId, done);
  }

  /** The optional sort of a group's hits: first on query start, then on reference start. */
  predicate HitBefore(a: Hit, b: Hit)
  {
    a.queryS < b.queryS || (a.queryS == b.queryS && a.refS < b.refS)
  }

  lemma HitBeforeIsStrictOrder()
    ensures StrictOrder(HitBefore)
  {
  }

  /** A group's hits as the sweep sees them: sorted when asked for, in stored order otherwise. */
  function GroupOrder(hits: seq<Hit>, sort: bool): (r: seq<Hit>)
    ensures multiset(r) == multiset(hits)
    ensures !sort ==> r == hits
    ensures sort ==> SortedBy(r, HitBefore)
  {
    HitBeforeIsStrictOrder();
    if sort then SortBy(hits, HitBefore) else hits
  }

  /** A NAM starting at one of the hits starts at one of the hits in any other order. */
  lemma PermutedOrigin(n: Nam, a: seq<Hit>, b: seq<Hit>, refId: nat)
    requires multiset(a) == multiset(b)
    requires HasOrigin(n, a, refId)
    ensures HasOrigin(n, b, refId)
  {
    var j :| 0 <= j < |a| && n.queryS == a[j].queryS && n.refS == a[j].refS && n.isRc == a[j].isRc;
    assert a[j] in multiset(b);
    var m :| 0 <= m < |b| && b[m] == a[j];
  }

  /** Reordering hits keeps them well formed. */
  lemma PermutedWellFormed(a: seq<Hit>, b: seq<Hit>)
    requires multiset(a) == multiset(b)
    ensures AllWellFormed(b) ==> AllWellFormed(a)
  {
    forall j | 0 <= j < |a| && AllWellFormed(b) ensures WellFormedHit(a[j]) {
      assert a[j] in multiset(b);
      var m :| 0 <= m < |b| && b[m] == a[j];
    }
  }

  /**
   * All NAMs of one reference: the hits (sorted first when asked for) are swept, then the NAMs
   * flushed during the sweep are followed by the ones still open. Every identifier handed out
   * (from `firstId` up to the returned next identifier) is emitted exactly once, the hit counts
   * add up to the number of hits, every NAM is scored at least 1 and starts at one of the hits,
   * and with well-formed hits every NAM keeps its coordinate ordering.
   */
  function MergeGroup(hits: seq<Hit>, refId: nat, k: int, firstId: int, sort: bool): (r: (seq<Nam>, int))
    ensures firstId <= r.1
    ensures multiset(Ids(r.0)) == multiset(Range(firstId, r.1))
    ensures SumHits(r.0) == |hits|
    ensures forall n <- r.0 :: n.score >= 1 && HasOrigin(n, hits, refId)
    ensures AllWellFormed(hits) ==> forall n <- r.0 :: NamShape(n)
  {
    var swept := GroupOrder(hits, sort);
    var st0 := Sweep([], 0, [], firstId);
    var st := SweepHits(st0, swept, refId, k);
    assert GroupInv(st0, refId, firstId, []);
    SweepHitsInv(st0, swept, refId, k, firstId, []);
    assert [] + swept == swept;
    FinishFacts(st, refId, firstId, swept);
    var out := st.nams + FinalizeAll(st.open);
    assert |swept| == |multiset(swept)| == |hits|;
    PermutedWellFormed(swept, hits);
    forall n <- out ensures HasOrigin(n, hits, refId) {
      PermutedOrigin(n, swept, hits, refId);
    }
    (out, st.nextId)
  }

  /** The number of hits over the listed reference groups. */
  function SumGroupSizes(hitsPerRef: map<nat, seq<Hit>>, order: seq<nat>): nat
    requires forall r <- order :: r in hitsPerRef
  {
    if |order| == 0 then 0 else |hitsPerRef[order[0]]| + SumGroupSizes(hitsPerRef, order[1..])
  }

  /** Every hit of every listed group is well formed. */
  predicate GroupsWellFormed(hitsPerRef: map<nat, seq<Hit>>)
  {
    forall r <- hitsPerRef :: AllWellFormed(hitsPerRef[r])
  }

  /**
   * The reference groups merged one after the other in the given order, identifiers continuing
   * from group to group.
   */
  function MergeGroups(hitsPerRef: map<nat, seq<Hit>>, order: seq<nat>, k: int, sort: bool, firstId: int): (r: (seq<Nam>, int))
    requires forall ref <- order :: ref in hitsPerRef
    ensures firstId <= r.1
    ensures multiset(Ids(r.0)) == multiset(Range(firstId, r.1))
    ensures SumHits(r.0) == SumGroupSizes(hitsPerRef, order)
    ensures forall n <- r.0 :: n.refId in order && n.score >= 1 && HasOrigin(n, hitsPerRef[n.refId], n.refId)
    ensures GroupsWellFormed(hitsPerRef) ==> forall n <- r.0 :: NamShape(n)
    decreases |order|
  {
    if |order| == 0 then ([], firstId)
    else
      var (g, mid) := MergeGroup(hitsPerRef[order[0]], order[0], k, firstId, sort);
      var (rest, last) := MergeGroups(hitsPerRef, order[1..], k, sort, mid);
      IdsAppend(g, rest);
      SumHitsAppend(g, rest);
      RangeAppend(firstId, mid, last);
      assert forall n <- rest :: n.refId in order by {
        forall n <- rest ensures n.refId in order {
          assert n.refId in order[1..];
        }
      }
      (g + rest, last)
  }

  /**
   * `merge_hits_into_nams`: the groups of the hash map in its iteration order, which is given as
   * `order`, a listing of its keys, each group sorted first when `sort` is set. The NAM identifiers
   * are exactly 0, 1, ..., |nams| - 1, each once; every hit is counted in exactly one NAM; every
   * score is at least 1.
   */
  function MergeHitsIntoNams(hitsPerRef: map<nat, seq<Hit>>, order: seq<nat>, k: int, sort: bool): (nams: seq<Nam>)
    requires Distinct(order) && Elements(order) == hitsPerRef.Keys
    ensures multiset(Ids(nams)) == multiset(Range(0, |nams|))
    ensures SumHits(nams) == SumGroupSizes(hitsPerRef, order)
    ensures forall n <- nams :: n.refId in hitsPerRef && n.score >= 1 && HasOrigin(n, hitsPerRef[n.refId], n.refId)
    ensures GroupsWellFormed(hitsPerRef) ==> forall n <- nams :: NamShape(n)
  {
    var (nams, next) := MergeGroups(hitsPerRef, order, k, sort, 0);
    assert |multiset(Ids(nams))| == |nams|;
    nams
  }

  /**
   * Two overlapping colinear hits merge into one NAM of two hits; a third hit more than k further
   * along the query flushes it, opens a second NAM and scores it at the end of the reference.
   */
  lemma MergeExample()
    ensures var h1 := Hit(10, 20, 100, 110, false);
            var h2 := Hit(18, 28, 108, 118, false);
            var h3 := Hit(40, 50, 200, 210, false);
            MergeHitsIntoNams(map[3 := [h1, h2, h3]], [3], 15, false)
            == [Nam(0, 10, 28, 18, 100, 118, 108, 2, 3, false, 36),
                Nam(1, 40, 50, 40, 200, 210, 200, 1, 3, false, 10)]
  {
  }
}
