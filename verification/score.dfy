/**
 The values the search agents compare: the material ratio is a ratio of small
 naturals or Python's `float('inf')`, and the minimax layers start from
 `float('-inf')` and `float('inf')`. Ratios with small denominators never
 collide under float rounding, so exact reals with two infinities order them
 as the source does.
 */
module Scores {

  datatype Score = NegInf | Finite(r: real) | PosInf

  predicate Le(a: Score, b: Score) {
    a.NegInf? || b.PosInf? || (a.Finite? && b.Finite? && a.r <= b.r)
  }

  predicate Lt(a: Score, b: Score) {
    !Le(b, a)
  }

  /** Python's `max(a, b)`: `a` unless `b` is strictly greater. */
  function Max(a: Score, b: Score): (r: Score)
    ensures Le(a, r) && Le(b, r)
    ensures r == a || r == b
  {
    if Lt(a, b) then b else a
  }

  /** Python's `min(a, b)`: `a` unless `b` is strictly smaller. */
  function Min(a: Score, b: Score): (r: Score)
    ensures Le(r, a) && Le(r, b)
    ensures r == a || r == b
  {
    if Lt(b, a) then b else a
  }

  /** `x` forced into the window `[lo, hi]`. */
  function Clamp(x: Score, lo: Score, hi: Score): Score {
    Max(lo, Min(x, hi))
  }

  lemma LeTransitive(a: Score, b: Score, c: Score)
    requires Le(a, b) && Le(b, c)
    ensures Le(a, c)
  {
  }

  /** When some entry equals an upper bound `m` of all entries, the first largest entry is `m`. */
  lemma FirstMaxAttains(vs: seq<Score>, i: int, j: int, m: Score)
    requires IsFirstMax(vs, i) && 0 <= j < |vs| && vs[j] == m
    requires forall k | 0 <= k < |vs| :: Le(vs[k], m)
    ensures vs[i] == m
  {
    assert Le(vs[j], vs[i]);
  }

  /** Index `i` is where Python's `max(range(len(vs)), key=...)` stops: a largest value, and the first one. */
  predicate IsFirstMax(vs: seq<Score>, i: int) {
    && 0 <= i < |vs|
    && (forall j | 0 <= j < |vs| :: Le(vs[j], vs[i]))
    && (forall j | 0 <= j < i :: Lt(vs[j], vs[i]))
  }

  /** The scan behind Python's `max` with a key: the candidate changes only on a strictly larger value. */
  function FirstMax(vs: seq<Score>): (i: nat)
    requires |vs| > 0
    ensures IsFirstMax(vs, i)
  {
    FirstMaxFrom(vs, 1, 0)
  }

  function FirstMaxFrom(vs: seq<Score>, k: nat, best: nat): (i: nat)
    requires best < k <= |vs|
    requires forall j | 0 <= j < k :: Le(vs[j], vs[best])
    requires forall j | 0 <= j < best :: Lt(vs[j], vs[best])
    ensures IsFirstMax(vs, i)
    decreases |vs| - k
  {
    if k == |vs| then best
    else if Lt(vs[best], vs[k]) then
      assert forall j | 0 <= j < k :: Le(vs[j], vs[k]) by {
        forall j | 0 <= j < k ensures Le(vs[j], vs[k]) {
          LeTransitive(vs[j], vs[best], vs[k]);
        }
      }
      FirstMaxFrom(vs, k + 1, k)
    else FirstMaxFrom(vs, k + 1, best)
  }

  lemma FirstMaxUnique(vs: seq<Score>, i: int, j: int)
    requires IsFirstMax(vs, i) && IsFirstMax(vs, j)
    ensures vs[i] == vs[j] && i == j
  {
  }

  /** Python's `next(i for i, x in enumerate(xs) if x == target)`. */
  function FirstIndexOf(xs: seq<Score>, target: Score): (i: nat)
    requires target in xs
    ensures i < |xs| && xs[i] == target
    ensures forall j | 0 <= j < i :: xs[j] != target
  {
    if xs[0] == target then 0 else 1 + FirstIndexOf(xs[1..], target)
  }

  /** The running maximum of the first `n` values, starting from `float('-inf')`. */
  function RunMax(vs: seq<Score>, n: nat): (r: Score)
    requires n <= |vs|
    ensures forall j | 0 <= j < n :: Le(vs[j], r)
    ensures n == 0 ==> r == NegInf
  {
    if n == 0 then NegInf else Max(RunMax(vs, n - 1), vs[n - 1])
  }

  lemma {:induction false} RunMaxMonotone(vs: seq<Score>, i: nat, j: nat)
    requires i <= j <= |vs|
    ensures Le(RunMax(vs, i), RunMax(vs, j))
    decreases j
  {
    if i < j {
      RunMaxMonotone(vs, i, j - 1);
    }
  }

  /**
   The first position where the running maximum reaches its final value `F`
   holds the first largest value, provided the scan covered every value or
   stopped on `float('inf')`.
   */
  lemma FirstReachIsFirstMax(vs: seq<Score>, n: nat, k: nat)
    requires 0 < n <= |vs|
    requires forall j | 0 <= j < |vs| :: vs[j] != NegInf
    requires n == |vs| || RunMax(vs, n) == PosInf
    requires k < n && RunMax(vs, k + 1) == RunMax(vs, n)
    requires forall j | 1 <= j <= k :: RunMax(vs, j) != RunMax(vs, n)
    ensures IsFirstMax(vs, k)
  {
    var f := RunMax(vs, n);
    assert RunMax(vs, k) != f by {
      if k > 0 {
        assert RunMax(vs, k) != f;
      } else {
        assert Le(vs[0], f);
      }
    }
    assert vs[k] == f;
    forall j | 0 <= j < k ensures Lt(vs[j], vs[k]) {
      RunMaxMonotone(vs, j + 1, n);
      assert RunMax(vs, j + 1) != f;
    }
  }
}
