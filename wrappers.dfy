/** The Option type that stands for Rust's `Option<T>` throughout the model. */
module Wrappers {

  datatype Option<+T> = None | Some(value: T) {

    /** `?` in Rust: a None propagates out of the enclosing function. */
    predicate IsFailure() {
      None?
    }

    function PropagateFailure<U>(): Option<U>
      requires None?
    {
      None
    }

    function Extract(): T
      requires Some?
    {
      value
    }
  }

  /** `collect::<Option<Vec<_>>>()` over `map(f)`: every value, or None as soon as one is None. */
  function Collect<A, B>(xs: seq<A>, f: A -> Option<B>): (r: Option<seq<B>>)
    ensures r.Some? ==> |r.value| == |xs|
  {
    if xs == [] then Some([])
    else
      var front :- Collect(xs[..|xs| - 1], f);
      var y :- f(xs[|xs| - 1]);
      Some(front + [y])
  }

  /** The collection fails exactly when some element maps to None. */
  lemma {:induction false} CollectFails<A, B>(xs: seq<A>, f: A -> Option<B>)
    ensures Collect(xs, f).None? <==> exists k | 0 <= k < |xs| :: f(xs[k]).None?
    decreases |xs|
  {
    if xs != [] {
      var front := xs[..|xs| - 1];
      CollectFails(front, f);
      assert forall k | 0 <= k < |front| :: front[k] == xs[k];
    }
  }

  /** A successful collection holds each element's value, in order. */
  lemma {:induction false} CollectValues<A, B>(xs: seq<A>, f: A -> Option<B>)
    requires Collect(xs, f).Some?
    ensures forall k | 0 <= k < |xs| :: f(xs[k]).Some? && Collect(xs, f).value[k] == f(xs[k]).value
    decreases |xs|
  {
    if xs != [] {
      var front := xs[..|xs| - 1];
      CollectValues(front, f);
      assert forall k | 0 <= k < |front| :: front[k] == xs[k];
    }
  }
}
