/**
 * Seeding parameters of the index: the validating constructor, the derived fields, the
 * six-integer serialisation and equality.
 */
module IndexParams {
  import opened Base

  /** The value `max_dist` is forced to, whatever the caller passes: offsets are packed in 8 bits. */
  const MaxDist: int := 255

  /** The configuration errors (`BadParameter`), one per check of `verify`. */
  datatype BadParameter = KNotInRange | SLargerThanK | KMinusSOdd | MaxDistTooLarge

  /** The nine fields of a parameter object; the last three are derived from k, s, l and u. */
  datatype IndexParameters = IndexParameters(
    k: int, s: int, l: int, u: int, maxDist: int, filterCutoff: int,
    tSyncmer: int, wMin: int, wMax: int)

  /** `verify`: the checks in source order, on the fields as stored. */
  function Verify(p: IndexParameters): (r: Option<BadParameter>)
    ensures r.None? <==> Acceptable(p.k, p.s) && p.maxDist <= MaxDist
    ensures r == Some(MaxDistTooLarge) <==> Acceptable(p.k, p.s) && p.maxDist > MaxDist
  {
    if p.k <= 7 || p.k > 32 then Some(KNotInRange)
    else if p.s > p.k then Some(SLargerThanK)
    else if (p.k - p.s) % 2 != 0 then Some(KMinusSOdd)
    else if p.maxDist > 255 then Some(MaxDistTooLarge)
    else None
  }

  /**
   * The constructor: stores k, s, l, u and the filter cutoff, derives the syncmer threshold and
   * the window bounds, ignores the `max_dist` argument, then runs `verify`.
   */
  function Make(k: int, s: int, l: int, u: int, maxDist: int, filterCutoff: int): (r: Result<IndexParameters, BadParameter>)
    ensures r.Ok? <==> Acceptable(k, s)
    ensures r.Ok? ==> Valid(r.value)
    ensures r.Ok? ==> r.value.k == k && r.value.s == s && r.value.l == l && r.value.u == u
    ensures r.Ok? ==> r.value.filterCutoff == filterCutoff
    ensures r.Ok? ==> r.value.tSyncmer >= 1 && r.value.wMin >= 1 && r.value.wMax >= 1
    ensures r != Err(MaxDistTooLarge)
  {
    var p := IndexParameters(k, s, l, u, MaxDist, filterCutoff, (k - s) / 2 + 1, Max(1, l), Max(1, u));
    match Verify(p)
    case Some(e) => Err(e)
    case None => Ok(p)
  }

  /** The parameter values the constructor accepts: k in [8, 32], s at most k, k - s even. */
  predicate Acceptable(k: int, s: int)
  {
    8 <= k <= 32 && s <= k && (k - s) % 2 == 0
  }

  /** What a successfully constructed object looks like. */
  predicate Valid(p: IndexParameters)
  {
    && Acceptable(p.k, p.s)
    && p.maxDist == MaxDist
    && p.tSyncmer == (p.k - p.s) / 2 + 1
    && p.wMin == Max(1, p.l)
    && p.wMax == Max(1, p.u)
  }

  /** The error reported is the first violated check: k range, then s > k, then parity. */
  lemma MakeErrorOrder(k: int, s: int, l: int, u: int, maxDist: int, filterCutoff: int)
    ensures (k < 8 || k > 32) ==> Make(k, s, l, u, maxDist, filterCutoff) == Err(KNotInRange)
    ensures 8 <= k <= 32 && s > k ==> Make(k, s, l, u, maxDist, filterCutoff) == Err(SLargerThanK)
    ensures 8 <= k <= 32 && s <= k && (k - s) % 2 == 1 ==> Make(k, s, l, u, maxDist, filterCutoff) == Err(KMinusSOdd)
  {
  }

  /** `operator==`: all nine fields, derived ones included. */
  predicate Equal(a: IndexParameters, b: IndexParameters)
  {
    && a.k == b.k && a.s == b.s && a.l == b.l && a.u == b.u
    && a.tSyncmer == b.tSyncmer && a.wMin == b.wMin && a.wMax == b.wMax
    && a.maxDist == b.maxDist && a.filterCutoff == b.filterCutoff
  }

  /** `operator!=`: the negation of `==`. */
  predicate NotEqual(a: IndexParameters, b: IndexParameters)
  {
    !Equal(a, b)
  }

  /** `==` is value equality: reflexive, symmetric, and `!=` is its negation. */
  lemma EqualityLaws(a: IndexParameters, b: IndexParameters)
    ensures Equal(a, b) <==> a == b
    ensures Equal(a, a)
    ensures Equal(a, b) <==> Equal(b, a)
    ensures NotEqual(a, b) <==> !Equal(a, b)
  {
  }

  /** Two constructed objects are equal exactly when their six constructor inputs (max_dist aside) agree. */
  lemma ConstructedEqualIff(a: IndexParameters, b: IndexParameters)
    requires Valid(a) && Valid(b)
    ensures Equal(a, b) <==> (a.k, a.s, a.l, a.u, a.filterCutoff) == (b.k, b.s, b.l, b.u, b.filterCutoff)
  {
  }

  /** `write`: the six stored integers, in the order k, s, l, u, max_dist, filter_cutoff. */
  function Write(p: IndexParameters): (out: seq<int>)
    ensures |out| == 6
    ensures out[0] == p.k && out[1] == p.s && out[2] == p.l && out[3] == p.u
    ensures out[4] == p.maxDist && out[5] == p.filterCutoff
  {
    [p.k, p.s, p.l, p.u, p.maxDist, p.filterCutoff]
  }

  /** Why reading parameters can fail. */
  datatype ReadError = StreamTooShort | Invalid(reason: BadParameter)

  /**
   * `read`: six integers in the same order, rebuilt through the validating constructor; the
   * rest of the stream is returned.
   */
  function Read(stream: seq<int>): (r: Result<(IndexParameters, seq<int>), ReadError>)
    ensures |stream| < 6 <==> r == Err(StreamTooShort)
    ensures r.Ok? ==> Valid(r.value.0) && r.value.1 == stream[6..]
    ensures |stream| >= 6 && !Acceptable(stream[0], stream[1]) ==> r.Err? && r.error.Invalid?
    ensures |stream| >= 6 ==> (r.Ok? <==> Acceptable(stream[0], stream[1]))
    ensures r.Ok? ==> && r.value.0.k == stream[0] && r.value.0.s == stream[1]
                      && r.value.0.l == stream[2] && r.value.0.u == stream[3]
                      && r.value.0.filterCutoff == stream[5]
  {
    if |stream| < 6 then Err(StreamTooShort)
    else
      match Make(stream[0], stream[1], stream[2], stream[3], stream[4], stream[5])
      case Err(e) => Err(Invalid(e))
      case Ok(p) => Ok((p, stream[6..]))
  }

  /** Writing a constructed object and reading it back gives the same object and leaves the rest. */
  lemma WriteReadRoundTrip(p: IndexParameters, rest: seq<int>)
    requires Valid(p)
    ensures Read(Write(p) + rest) == Ok((p, rest))
  {
    assert (Write(p) + rest)[6..] == rest;
  }

  /** `filename_extension`: the parameter-specific part is disabled, leaving ".sti". */
  function FilenameExtension(p: IndexParameters): string
  {
    ".sti"
  }

  /** The extension does not depend on the parameters. */
  lemma FilenameExtensionConstant(p: IndexParameters, q: IndexParameters)
    ensures FilenameExtension(p) == FilenameExtension(q) == ".sti"
  {
  }
}
