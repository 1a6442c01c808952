/** Counting the positions of a sequence that satisfy a predicate.

    The grid keeps its cells in one flat sequence; the mine total, the number of
    hidden cells and the number of cells still free for a mine are all counts of
    this kind.
 */
module Counting {

  /** Number of positions i of s for which p(i, s[i]) holds. */
  function CountWhere<T>(s: seq<T>, p: (int, T) -> bool): (n: nat)
    ensures n <= |s|
    decreases |s|
  {
    if |s| == 0 then 0
    else CountWhere(s[..|s| - 1], p) + (if p(|s| - 1, s[|s| - 1]) then 1 else 0)
  }

  /** The count is zero exactly when no position satisfies p. */
  lemma {:induction false} CountWhereZero<T>(s: seq<T>, p: (int, T) -> bool)
    ensures CountWhere(s, p) == 0 <==> forall i :: 0 <= i < |s| ==> !p(i, s[i])
    decreases |s|
  {
    if |s| > 0 {
      var init := s[..|s| - 1];
      CountWhereZero(init, p);
      assert forall i :: 0 <= i < |init| ==> init[i] == s[i];
    }
  }

  /** The count is the full length exactly when every position satisfies p. */
  lemma {:induction false} CountWhereFull<T>(s: seq<T>, p: (int, T) -> bool)
    ensures CountWhere(s, p) == |s| <==> forall i :: 0 <= i < |s| ==> p(i, s[i])
    decreases |s|
  {
    if |s| > 0 {
      var init := s[..|s| - 1];
      CountWhereFull(init, p);
      assert forall i :: 0 <= i < |init| ==> init[i] == s[i];
    }
  }

  /** Replacing one element changes the count by what that element contributes
      before and after. */
  lemma {:induction false} CountWhereUpdate<T>(s: seq<T>, p: (int, T) -> bool, i: int, v: T)
    requires 0 <= i < |s|
    ensures CountWhere(s[i := v], p) + (if p(i, s[i]) then 1 else 0)
         == CountWhere(s, p) + (if p(i, v) then 1 else 0)
    decreases |s|
  {
    var t := s[i := v];
    if i == |s| - 1 {
      assert t[..|t| - 1] == s[..|s| - 1];
    } else {
      assert t[..|t| - 1] == s[..|s| - 1][i := v];
      CountWhereUpdate(s[..|s| - 1], p, i, v);
    }
  }

  /** A position-wise implication between two sequences of equal length bounds
      their counts. */
  lemma {:induction false} CountWhereMono<T, U>(s: seq<T>, p: (int, T) -> bool, t: seq<U>, q: (int, U) -> bool)
    requires |s| == |t|
    requires forall i :: 0 <= i < |s| && p(i, s[i]) ==> q(i, t[i])
    ensures CountWhere(s, p) <= CountWhere(t, q)
    decreases |s|
  {
    if |s| > 0 {
      var s', t' := s[..|s| - 1], t[..|t| - 1];
      assert forall i :: 0 <= i < |s'| ==> s'[i] == s[i] && t'[i] == t[i];
      CountWhereMono(s', p, t', q);
    }
  }
}
