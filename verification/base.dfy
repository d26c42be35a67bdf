/** Small shared vocabulary: optional values, results, machine-integer ranges and integer ranges. */
module Base {

  /** A value that may be absent (a failed hash lookup, a thrown exception). */
  datatype Option<+T> = None | Some(value: T)

  /** A value or an error, for operations of the source that throw. */
  datatype Result<+T, +E> = Ok(value: T) | Err(error: E)

  const TwoTo31: int := 0x8000_0000
  const TwoTo32: int := 0x1_0000_0000
  const TwoTo64: int := 0x1_0000_0000_0000_0000

  /** Values of a C++ `uint32_t` / `unsigned int`. */
  type u32 = x: int | 0 <= x < 0x1_0000_0000

  /** Values of a C++ `uint64_t`. */
  type u64 = x: int | 0 <= x < 0x1_0000_0000_0000_0000

  /** Conversion of an `int` to `unsigned int` (reduction modulo 2^32). */
  function ToU32(x: int): (r: u32)
    ensures (r - x) % TwoTo32 == 0
    ensures 0 <= x < TwoTo32 ==> r == x
  {
    x % TwoTo32
  }

  /** Conversion of an `unsigned int` to a two's-complement `int`. */
  function AsInt32(x: u32): (r: int)
    ensures -TwoTo31 <= r < TwoTo31
    ensures ToU32(r) == x
  {
    if x < TwoTo31 then x else x - TwoTo32
  }

  function Abs(x: int): nat
  {
    if x < 0 then -x else x
  }

  function Min(a: int, b: int): int
  {
    if a <= b then a else b
  }

  function Max(a: int, b: int): int
  {
    if a >= b then a else b
  }

  /** The integers lo, lo + 1, ..., hi - 1 (empty when hi <= lo). */
  function Range(lo: int, hi: int): (r: seq<int>)
    ensures |r| == Max(0, hi - lo)
    ensures forall i :: 0 <= i < |r| ==> r[i] == lo + i
  {
    if hi <= lo then [] else seq(hi - lo, i requires 0 <= i < hi - lo => lo + i)
  }

  /** Splitting a range at its last element. */
  lemma RangeSnoc(lo: int, hi: int)
    requires lo <= hi
    ensures Range(lo, hi + 1) == Range(lo, hi) + [hi]
  {
  }

  /** Splitting a range at an interior point. */
  lemma RangeAppend(lo: int, mid: int, hi: int)
    requires lo <= mid <= hi
    ensures Range(lo, hi) == Range(lo, mid) + Range(mid, hi)
  {
  }

  /** No element occurs twice. */
  predicate Distinct<T(==)>(s: seq<T>)
  {
    forall i, j :: 0 <= i < j < |s| ==> s[i] != s[j]
  }

  /** The set of elements of a sequence. */
  function Elements<T>(s: seq<T>): set<T>
  {
    set x | x in s
  }
}
