/** Optional values and error results used across the model. */
module Base {

  datatype Option<+T> = None | Some(value: T)

  /** The value of a call that either succeeds or raises a caller-visible error. */
  datatype Result<+T, +E> = Ok(value: T) | Err(error: E)

  /** Positions listed in ascending order, each once. */
  predicate StrictlyIncreasing(xs: seq<nat>) {
    forall a, b :: 0 <= a < b < |xs| ==> xs[a] < xs[b]
  }

  /** The positions among the first n elements of xs whose element passes keep, in order. */
  function Positions<T>(xs: seq<T>, keep: T -> bool, n: nat): seq<nat>
    requires n <= |xs|
  {
    if n == 0 then []
    else Positions(xs, keep, n - 1) + (if keep(xs[n - 1]) then [n - 1] else [])
  }

  /** The positions increase and stay below n. */
  lemma {:induction false} PositionsOrdered<T>(xs: seq<T>, keep: T -> bool, n: nat)
    requires n <= |xs|
    ensures StrictlyIncreasing(Positions(xs, keep, n))
    ensures forall k :: 0 <= k < |Positions(xs, keep, n)| ==> Positions(xs, keep, n)[k] < n
  {
    if n > 0 {
      PositionsOrdered(xs, keep, n - 1);
    }
  }

  /** A position is listed exactly when it is below n and its element passes keep. */
  lemma {:induction false} PositionsMembers<T>(xs: seq<T>, keep: T -> bool, n: nat)
    requires n <= |xs|
    ensures forall i :: i in Positions(xs, keep, n) <==> 0 <= i < n && keep(xs[i])
  {
    if n > 0 {
      PositionsMembers(xs, keep, n - 1);
      PositionsOrdered(xs, keep, n - 1);
      var p0 := Positions(xs, keep, n - 1);
      assert n - 1 !in p0;
    }
  }

  /** Only the first n elements matter. */
  lemma {:induction false} PositionsPrefix<T>(xs: seq<T>, keep: T -> bool, n: nat, m: nat)
    requires n <= m <= |xs|
    ensures Positions(xs[..m], keep, n) == Positions(xs, keep, n)
  {
    if n > 0 {
      PositionsPrefix(xs, keep, n - 1, m);
      assert xs[..m][n - 1] == xs[n - 1];
    }
  }
}
