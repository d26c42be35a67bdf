/**
 * Per-read post-processing of NAMs: checking (and if needed correcting) a NAM's strand by
 * comparing its boundary k-mers on the read and on the reference, the two NAM orders, and the
 * sort / keep-the-best-L / re-sort steps that choose the NAMs reported for a read.
 */
module Aln {
  import opened Base
  import opened Sorting
  import opened NamTypes

  // ---------------------------------------------------------------- substrings

  /** `std::string::substr` throws `std::out_of_range`. */
  datatype AlnError = OutOfRange

  /**
   * `s.substr(pos, count)` with `int` arguments converted to `size_t`: a negative position is
   * beyond the end and throws, as does a position past the end; a negative count means "to the
   * end", and so does a count reaching past the end.
   */
  function Substr(s: string, pos: int, count: int): (r: Option<string>)
    ensures r.None? <==> pos < 0 || pos > |s|
    ensures r.Some? && 0 <= count <= |s| - pos ==> r.value == s[pos..pos + count]
    ensures r.Some? && (count < 0 || count > |s| - pos) ==> r.value == s[pos..]
    ensures r.Some? && count >= 0 ==> |r.value| == Min(count, |s| - pos)
  {
    if pos < 0 || pos > |s| then None
    else if count < 0 || pos + count > |s| then Some(s[pos..])
    else Some(s[pos..pos + count])
  }

  // ---------------------------------------------------------------- reverse_nam_if_needed

  /** A read: its sequence and its reverse complement (computed elsewhere). */
  datatype Read = Read(forward: string, rc: string)
  {
    /** The read length, that of its sequence. */
    function Size(): nat
    {
      |forward|
    }
  }

  /** The read sequence in a NAM's presumed orientation: the reverse complement for a reverse-strand NAM. */
  function Oriented(read: Read, isRc: bool): string
  {
    if isRc then read.rc else read.forward
  }

  /**
   * The NAM's first and last k-mers on the read (in orientation `isRc`) equal its first and last
   * k-mers on the reference, every substring being in range.
   */
  predicate BoundaryMatch(n: Nam, read: Read, ref: string, k: int)
  {
    var s := Oriented(read, n.isRc);
    && Substr(ref, n.refS, k).Some? && Substr(ref, n.refE - k, k).Some?
    && Substr(s, n.queryS, k).Some? && Substr(s, n.queryE - k, k).Some?
    && Substr(ref, n.refS, k) == Substr(s, n.queryS, k)
    && Substr(ref, n.refE - k, k) == Substr(s, n.queryE - k, k)
  }

  /**
   * The NAM moved to the other strand's frame: strand flipped, query coordinates mirrored through
   * the read length (`q -> read_len - q`, start and end swapping roles).
   */
  function Flip(n: Nam, readLen: int): (r: Nam)
    ensures r.isRc == !n.isRc
    ensures r.QuerySpan() == n.QuerySpan()
    ensures SameReferenceSide(n, r)
  {
    n.(isRc := !n.isRc, queryS := readLen - n.queryE, queryE := readLen - n.queryS)
  }

  /** Everything but the strand and the query coordinates is the same. */
  predicate SameReferenceSide(a: Nam, b: Nam)
  {
    && a.namId == b.namId && a.refId == b.refId && a.refS == b.refS && a.refE == b.refE
    && a.nHits == b.nHits && a.score == b.score
    && a.queryPrevHitStartpos == b.queryPrevHitStartpos && a.refPrevHitStartpos == b.refPrevHitStartpos
  }

  /** Mirroring twice through the same read length gives back the NAM. */
  lemma FlipInvolution(n: Nam, readLen: int)
    ensures Flip(Flip(n, readLen), readLen) == n
  {
  }

  /**
   * `reverse_nam_if_needed`: the NAM's boundary k-mers are compared in its presumed orientation
   * and, failing that, in the other one with mirrored query coordinates. The result is whether
   * one of them matched, with the NAM (flipped when the second matched); a substring out of range
   * throws. The reference k-mers and the first pair of read k-mers are all extracted before the
   * first comparison.
   */
  function ReverseNamIfNeeded(n: Nam, read: Read, refs: seq<string>, k: int): (r: Result<(bool, Nam), AlnError>)
    requires n.refId < |refs|
    ensures r.Ok? ==> r.value.1 == n || r.value.1 == Flip(n, read.Size())
  {
    var ref := refs[n.refId];
    var readLen := read.Size();
    var s := Oriented(read, n.isRc);
    var sRc := Oriented(read, !n.isRc);
    match Substr(ref, n.refS, k)
    case None => Err(OutOfRange)
    case Some(refStart) =>
      match Substr(ref, n.refE - k, k)
      case None => Err(OutOfRange)
      case Some(refEnd) =>
        match Substr(s, n.queryS, k)
        case None => Err(OutOfRange)
        case Some(readStart) =>
          match Substr(s, n.queryE - k, k)
          case None => Err(OutOfRange)
          case Some(readEnd) =>
            if refStart == readStart && refEnd == readEnd then Ok((true, n))
            else
              var qStart := readLen - n.queryE;
              var qEnd := readLen - n.queryS;
              match Substr(sRc, qStart, k)
              case None => Err(OutOfRange)
              case Some(rcStart) =>
                match Substr(sRc, qEnd - k, k)
                case None => Err(OutOfRange)
                case Some(rcEnd) =>
                  if refStart == rcStart && refEnd == rcEnd then
                    Ok((true, Flip(n, readLen)))
                  else Ok((false, n))
  }

  /** The NAM is returned unchanged with `true` exactly when its boundary k-mers match as it stands. */
  lemma ReverseNamUnchangedIff(n: Nam, read: Read, refs: seq<string>, k: int)
    requires n.refId < |refs|
    ensures ReverseNamIfNeeded(n, read, refs, k) == Ok((true, n)) <==> BoundaryMatch(n, read, refs[n.refId], k)
  {
  }

  /** A `true` result leaves the NAM consistent in its own orientation. */
  lemma ReverseNamTrueIsConsistent(n: Nam, read: Read, refs: seq<string>, k: int)
    requires n.refId < |refs|
    ensures var r := ReverseNamIfNeeded(n, read, refs, k);
      r.Ok? && r.value.0 ==> BoundaryMatch(r.value.1, read, refs[n.refId], k)
  {
  }

  /** A changed NAM was flipped into the other orientation, and the result says so. */
  lemma ReverseNamChangedIsFlipped(n: Nam, read: Read, refs: seq<string>, k: int)
    requires n.refId < |refs|
    ensures var r := ReverseNamIfNeeded(n, read, refs, k);
      r.Ok? && r.value.1 != n ==> r.value.0 && r.value.1 == Flip(n, read.Size())
  {
  }

  /** A `false` result leaves the NAM unchanged, and then it does not match as it stands. */
  lemma ReverseNamFalseMeansNoMatch(n: Nam, read: Read, refs: seq<string>, k: int)
    requires n.refId < |refs|
    ensures var r := ReverseNamIfNeeded(n, read, refs, k);
      r.Ok? && !r.value.0 ==> r.value.1 == n && !BoundaryMatch(n, read, refs[n.refId], k)
  {
  }

  /** After a `false` result the flipped NAM does not match either. */
  lemma ReverseNamFalseMeansNoFlippedMatch(n: Nam, read: Read, refs: seq<string>, k: int)
    requires n.refId < |refs|
    ensures var r := ReverseNamIfNeeded(n, read, refs, k);
      r.Ok? && !r.value.0 ==> !BoundaryMatch(Flip(n, read.Size()), read, refs[n.refId], k)
  {
    var f := Flip(n, read.Size());
    var ref := refs[n.refId];
    if BoundaryMatch(f, read, ref, k) {
      var sRc := Oriented(read, !n.isRc);
      assert Oriented(read, f.isRc) == sRc;
      assert Substr(sRc, read.Size() - n.queryE, k) == Substr(ref, n.refS, k);
      assert Substr(sRc, read.Size() - n.queryS - k, k) == Substr(ref, n.refE - k, k);
    }
  }

  /** The reference side of the NAM and its query span are never changed. */
  lemma ReverseNamKeepsReferenceSide(n: Nam, read: Read, refs: seq<string>, k: int)
    requires n.refId < |refs|
    ensures var r := ReverseNamIfNeeded(n, read, refs, k);
      r.Ok? ==> SameReferenceSide(n, r.value.1) && r.value.1.QuerySpan() == n.QuerySpan()
  {
  }

  /** The k-mer positions the function reads are all in range: then it cannot throw. */
  predicate InRange(n: Nam, read: Read, ref: string, k: int)
  {
    var s := Oriented(read, n.isRc);
    var f := Flip(n, read.Size());
    var t := Oriented(read, f.isRc);
    && 0 <= n.refS <= |ref| && 0 <= n.refE - k <= |ref|
    && 0 <= n.queryS <= |s| && 0 <= n.queryE - k <= |s|
    && 0 <= f.queryS <= |t| && 0 <= f.queryE - k <= |t|
  }

  lemma InRangeNeverThrows(n: Nam, read: Read, refs: seq<string>, k: int)
    requires n.refId < |refs|
    requires InRange(n, read, refs[n.refId], k)
    ensures ReverseNamIfNeeded(n, read, refs, k).Ok?
  {
  }

  /** A reference k-mer position outside the reference always throws. */
  lemma ReferenceOutOfRangeThrows(n: Nam, read: Read, refs: seq<string>, k: int)
    requires n.refId < |refs|
    requires n.refS < 0 || n.refS > |refs[n.refId]| || n.refE - k < 0 || n.refE - k > |refs[n.refId]|
    ensures ReverseNamIfNeeded(n, read, refs, k) == Err(OutOfRange)
  {
  }

  /**
   * Applying the check to its own corrected output changes nothing: a NAM returned as matching
   * matches in its own orientation.
   */
  lemma ReverseNamIdempotent(n: Nam, read: Read, refs: seq<string>, k: int)
    requires n.refId < |refs|
    requires ReverseNamIfNeeded(n, read, refs, k).Ok? && ReverseNamIfNeeded(n, read, refs, k).value.0
    ensures var m := ReverseNamIfNeeded(n, read, refs, k).value.1;
            m.refId == n.refId && ReverseNamIfNeeded(m, read, refs, k) == Ok((true, m))
  {
    var m := ReverseNamIfNeeded(n, read, refs, k).value.1;
    ReverseNamTrueIsConsistent(n, read, refs, k);
    ReverseNamKeepsReferenceSide(n, read, refs, k);
    ReverseNamUnchangedIff(m, read, refs, k);
  }

  // ---------------------------------------------------------------- the two NAM orders

  /** `score`: higher scores first. */
  predicate ScoreGreater(a: Nam, b: Nam)
  {
    a.score > b.score
  }

  /** `compareByQueryCoord`: by reference, then query start, then reference start. */
  predicate CompareByQueryCoord(a: Nam, b: Nam)
  {
    || a.refId < b.refId
    || (a.refId == b.refId && a.queryS < b.queryS)
    || (a.refId == b.refId && a.queryS == b.queryS && a.refS < b.refS)
  }

  /** Both orders are irreflexive and transitive. */
  lemma OrdersAreStrict()
    ensures StrictOrder(ScoreGreater) && StrictOrder(CompareByQueryCoord)
  {
  }

  /**
   * Both are strict weak orders, as `std::sort` requires: two NAMs are unordered exactly when
   * their keys are equal, which is a transitive relation.
   */
  lemma OrdersAreWeak(a: Nam, b: Nam)
    ensures !ScoreGreater(a, b) && !ScoreGreater(b, a) <==> a.score == b.score
    ensures !CompareByQueryCoord(a, b) && !CompareByQueryCoord(b, a)
            <==> (a.refId, a.queryS, a.refS) == (b.refId, b.queryS, b.refS)
  {
  }

  /** `compareByQueryCoord` is the lexicographic order on (reference, query start, reference start). */
  lemma CompareByQueryCoordIsLexicographic(a: Nam, b: Nam)
    ensures CompareByQueryCoord(a, b) <==>
      if a.refId != b.refId then a.refId < b.refId
      else if a.queryS != b.queryS then a.queryS < b.queryS
      else a.refS < b.refS
  {
  }

  // ---------------------------------------------------------------- choosing the NAMs to report

  /**
   * The NAMs sorted by decreasing score, cut after the first `L`: `min(L, |nams|)` NAMs from the
   * input, in score order, none scoring below any NAM left out.
   */
  function TopByScore(nams: seq<Nam>, L: nat): (r: seq<Nam>)
    ensures |r| == Min(L, |nams|)
    ensures multiset(r) <= multiset(nams)
    ensures SortedBy(r, ScoreGreater)
    ensures forall x, y :: x in multiset(r) && y in multiset(nams) - multiset(r) ==> y.score <= x.score
  {
    OrdersAreStrict();
    var byScore := SortBy(nams, ScoreGreater);
    var n := Min(L, |byScore|);
    KeptOutscoreDropped(byScore, n);
    CutSplitsMultiset(byScore, n);
    byScore[..n]
  }

  /** Cutting a sequence leaves in the dropped part exactly what the kept part lacks. */
  lemma CutSplitsMultiset<T>(s: seq<T>, n: nat)
    requires n <= |s|
    ensures multiset(s[..n]) <= multiset(s)
    ensures multiset(s) - multiset(s[..n]) == multiset(s[n..])
  {
    assert s == s[..n] + s[n..];
  }

  /**
   * The selection in `align_SE_read`: the best `L` NAMs by score, re-sorted by coordinates unless
   * output is to be in score order. The result has `min(L, |nams|)` NAMs taken from the input,
   * none scoring below any NAM left out, in the requested order.
   */
  function SelectNams(nams: seq<Nam>, L: nat, sortOnScores: bool): (r: seq<Nam>)
    ensures |r| == Min(L, |nams|)
    ensures multiset(r) <= multiset(nams)
    ensures forall x, y :: x in multiset(r) && y in multiset(nams) - multiset(r) ==> y.score <= x.score
    ensures sortOnScores ==> SortedBy(r, ScoreGreater)
    ensures !sortOnScores ==> SortedBy(r, CompareByQueryCoord)
  {
    OrdersAreStrict();
    var cut := TopByScore(nams, L);
    if sortOnScores then cut else SortBy(cut, CompareByQueryCoord)
  }

  /** In a sequence sorted by decreasing score, no NAM after position `n` outscores one before it. */
  lemma KeptOutscoreDropped(s: seq<Nam>, n: nat)
    requires SortedBy(s, ScoreGreater) && n <= |s|
    ensures SortedBy(s[..n], ScoreGreater)
    ensures forall x, y :: x in multiset(s[..n]) && y in multiset(s[n..]) ==> y.score <= x.score
  {
    PrefixOfSorted(s, n, ScoreGreater);
    forall x, y | x in multiset(s[..n]) && y in multiset(s[n..]) ensures y.score <= x.score {
      assert x in s[..n];
      assert y in s[n..];
      var i :| 0 <= i < n && s[..n][i] == x;
      var j :| 0 <= j < |s| - n && s[n..][j] == y;
      assert s[i] == x && s[n + j] == y;
    }
  }
}
