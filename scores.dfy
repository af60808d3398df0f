/**
 * Scores of the search: the heuristic's floats restricted to what the engine
 * distinguishes, an integer or one of the two infinities that mean a forced
 * loss or a forced win.
 */
module Scores {

  datatype Score = NegInf | Fin(n: int) | PosInf {
    /** The heuristic reports a forced outcome (C#: `h == -inf || h == +inf`). */
    predicate Infinite() {
      !Fin?
    }
  }

  /** Strictly below, the float `<` on the extended integers. */
  predicate Lt(a: Score, b: Score) {
    match a
    case NegInf => !b.NegInf?
    case Fin(x) => b.PosInf? || (b.Fin? && x < b.n)
    case PosInf => false
  }

  predicate Le(a: Score, b: Score) {
    !Lt(b, a)
  }

  function Max(a: Score, b: Score): (r: Score)
    ensures Le(a, r) && Le(b, r)
    ensures r == a || r == b
  {
    if Lt(a, b) then b else a
  }

  function Min(a: Score, b: Score): (r: Score)
    ensures Le(r, a) && Le(r, b)
    ensures r == a || r == b
  {
    if Lt(b, a) then b else a
  }

  lemma LeTrans(a: Score, b: Score, c: Score)
    requires Le(a, b) && Le(b, c)
    ensures Le(a, c)
  {
  }

  lemma LeLtTrans(a: Score, b: Score, c: Score)
    requires Le(a, b) && Lt(b, c)
    ensures Lt(a, c)
  {
  }

  lemma LtLeTrans(a: Score, b: Score, c: Score)
    requires Lt(a, b) && Le(b, c)
    ensures Lt(a, c)
  {
  }

  /** Largest element of `s`; `NegInf` for the empty sequence. */
  function MaxOf(s: seq<Score>): (r: Score)
    ensures forall i :: 0 <= i < |s| ==> Le(s[i], r)
    ensures s == [] ==> r == NegInf
    ensures s != [] ==> r in s
  {
    if s == [] then NegInf else Max(MaxOf(s[..|s| - 1]), s[|s| - 1])
  }

  /** Smallest element of `s`; `PosInf` for the empty sequence. */
  function MinOf(s: seq<Score>): (r: Score)
    ensures forall i :: 0 <= i < |s| ==> Le(r, s[i])
    ensures s == [] ==> r == PosInf
    ensures s != [] ==> r in s
  {
    if s == [] then PosInf else Min(MinOf(s[..|s| - 1]), s[|s| - 1])
  }

  /** Index of the first occurrence of `v` in `s`. */
  function FirstIndex(s: seq<Score>, v: Score): (r: nat)
    requires v in s
    ensures r < |s| && s[r] == v
    ensures forall j :: 0 <= j < r ==> s[j] != v
  {
    if s[0] == v then 0 else 1 + FirstIndex(s[1..], v)
  }

  /** Any index holding `v` with no earlier `v` is the first index. */
  lemma FirstIndexUnique(s: seq<Score>, v: Score, k: nat)
    requires k < |s| && s[k] == v
    requires forall j :: 0 <= j < k ==> s[j] != v
    ensures FirstIndex(s, v) == k
  {
  }
}
