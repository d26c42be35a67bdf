/** The per-read records of the NAM finder: seed hits and NAMs (chains of colinear hits). */
module NamTypes {
  import opened Base

  /** One accepted occurrence of a query seed: query span, reference span, strand. */
  datatype Hit = Hit(queryS: int, queryE: int, refS: int, refE: int, isRc: bool)

  /** A hit whose spans are not reversed. */
  predicate WellFormedHit(h: Hit)
  {
    h.queryS <= h.queryE && h.refS <= h.refE
  }

  /**
   * A NAM: query and reference spans, the start coordinates of the last hit added, the number
   * of hits merged, the reference it lies on, its strand, its score and its per-read identifier.
   */
  datatype Nam = Nam(
    namId: int,
    queryS: int,
    queryE: int,
    queryPrevHitStartpos: int,
    refS: int,
    refE: int,
    refPrevHitStartpos: int,
    nHits: int,
    refId: nat,
    isRc: bool,
    score: int)
  {
    function QuerySpan(): int
    {
      queryE - queryS
    }

    function RefSpan(): int
    {
      refE - refS
    }
  }

  /** The coordinate ordering every NAM keeps: the last hit's starts lie inside both spans. */
  predicate NamShape(n: Nam)
  {
    && n.queryS <= n.queryPrevHitStartpos <= n.queryE
    && n.refS <= n.refPrevHitStartpos <= n.refE
    && n.nHits >= 1
  }

  /** The identifiers of a sequence of NAMs, in order. */
  function Ids(s: seq<Nam>): (r: seq<int>)
    ensures |r| == |s|
    ensures forall i :: 0 <= i < |s| ==> r[i] == s[i].namId
  {
    seq(|s|, i requires 0 <= i < |s| => s[i].namId)
  }

  lemma IdsCons(s: seq<Nam>)
    requires |s| > 0
    ensures Ids(s) == [s[0].namId] + Ids(s[1..])
  {
  }

  lemma IdsAppend(a: seq<Nam>, b: seq<Nam>)
    ensures Ids(a + b) == Ids(a) + Ids(b)
  {
  }

  /** The total number of hits merged into a sequence of NAMs. */
  function SumHits(s: seq<Nam>): int
  {
    if |s| == 0 then 0 else s[0].nHits + SumHits(s[1..])
  }

  lemma {:induction false} SumHitsAppend(a: seq<Nam>, b: seq<Nam>)
    ensures SumHits(a + b) == SumHits(a) + SumHits(b)
    decreases |a|
  {
    if |a| == 0 {
      assert a + b == b;
    } else {
      assert (a + b)[1..] == a[1..] + b;
      SumHitsAppend(a[1..], b);
    }
  }

  /** Identifiers strictly increase along the sequence. */
  predicate Increasing(xs: seq<int>)
  {
    forall i, j :: 0 <= i < j < |xs| ==> xs[i] < xs[j]
  }
}
