/**
 * The few Python built-ins the paper teacher relies on, with their exact
 * CPython semantics: `str.find`, `list.index` and `s[start:stop]` slicing
 * with negative and out-of-range bounds.
 */
module PyBuiltins {

  datatype Option<T> = None | Some(value: T)

  datatype Result<T, E> = Success(value: T) | Failure(error: E)

  /** `needle` occurs in `hay` starting at index `i`. */
  predicate OccursAt(hay: string, needle: string, i: int) {
    0 <= i && i + |needle| <= |hay| && hay[i..i + |needle|] == needle
  }

  /** `hay.find(needle, from)`: the first occurrence at or after `from`, or -1. */
  function FindFrom(hay: string, needle: string, from: nat): (r: int)
    ensures r == -1 || (from <= r && OccursAt(hay, needle, r))
    ensures forall j :: from <= j && (r == -1 || j < r) ==> !OccursAt(hay, needle, j)
    decreases |hay| - from
  {
    if from + |needle| > |hay| then -1
    else if hay[from..from + |needle|] == needle then from
    else FindFrom(hay, needle, from + 1)
  }

  /**
   * `hay.find(needle)`: the lowest index at which `needle` occurs, or -1
   * when it does not occur at all. The empty needle occurs at 0.
   */
  function Find(hay: string, needle: string): (r: int)
    ensures r == -1 || OccursAt(hay, needle, r)
    ensures r == -1 <==> forall j :: !OccursAt(hay, needle, j)
    ensures forall j :: j < r ==> !OccursAt(hay, needle, j)
    ensures needle == "" ==> r == 0
  {
    assert needle == "" ==> OccursAt(hay, needle, 0);
    FindFrom(hay, needle, 0)
  }

  /**
   * `xs.index(x)`: the position of the first element equal to `x`;
   * None stands for the ValueError raised when `x` is not in `xs`.
   */
  function IndexOf<T(==)>(xs: seq<T>, x: T): (r: Option<nat>)
    ensures r.None? <==> x !in xs
    ensures r.Some? ==> r.value < |xs| && xs[r.value] == x && x !in xs[..r.value]
  {
    if |xs| == 0 then None
    else if xs[0] == x then Some(0)
    else
      match IndexOf(xs[1..], x)
      case None => None
      case Some(i) =>
        assert xs[..i + 1] == [xs[0]] + xs[1..][..i];
        Some(i + 1)
  }

  /**
   * How Python turns a slice bound `i` into a position of a sequence of
   * length `n`: a negative bound counts from the end, and the result is
   * clamped into 0..n.
   */
  function SliceBound(i: int, n: nat): (k: nat)
    ensures k <= n
    ensures 0 <= i <= n ==> k == i
    ensures i < 0 && 0 <= i + n ==> k == i + n
  {
    if i < 0 then (if i + n < 0 then 0 else i + n)
    else if i > n then n
    else i
  }

  /** `s` is the contiguous piece `t[lo..hi]` of `t`. */
  predicate PieceAt(s: string, t: string, lo: int, hi: int) {
    0 <= lo <= hi <= |t| && s == t[lo..hi]
  }

  /** `s[start:stop]`, where a missing `stop` (Python's None) means "to the end". */
  function Slice(s: string, start: int, stop: Option<int>): (r: string)
    ensures |r| <= |s|
    ensures exists lo, hi :: PieceAt(r, s, lo, hi)
  {
    var lo := SliceBound(start, |s|);
    var hi := if stop.Some? then SliceBound(stop.value, |s|) else |s|;
    if lo < hi then
      assert PieceAt(s[lo..hi], s, lo, hi);
      s[lo..hi]
    else
      assert PieceAt("", s, lo, lo);
      ""
  }

  /** A slice between two bounds inside the sequence, empty when they are out of order. */
  lemma SliceBetween(s: string, a: int, b: int)
    requires 0 <= a <= |s| && 0 <= b <= |s|
    ensures Slice(s, a, Some(b)) == if a <= b then s[a..b] else ""
  {
    assert SliceBound(a, |s|) == a && SliceBound(b, |s|) == b;
  }

  /** A slice from a bound inside the sequence to its end. */
  lemma SliceToEnd(s: string, a: int)
    requires 0 <= a <= |s|
    ensures Slice(s, a, None) == s[a..]
  {
    assert SliceBound(a, |s|) == a;
  }

  /** A bound of -1 (what `find` returns for "not found") stands for the last position. */
  lemma SliceMinusOne(s: string)
    requires s != ""
    ensures SliceBound(-1, |s|) == |s| - 1
  {
  }
}
