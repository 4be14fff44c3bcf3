/** Optional values and results with an error, standing in for Python's
    `None` and for exceptions raised by the converter. */
module Wrappers {

  datatype Option<+T> = None | Some(value: T)

  datatype Result<+T, +E> = Ok(value: T) | Err(error: E) {

    predicate IsFailure() {
      Err?
    }

    function PropagateFailure<U>(): Result<U, E>
      requires Err?
    {
      Err(error)
    }

    function Extract(): T
      requires Ok?
    {
      value
    }
  }

  /** `prefix` followed by the list in `r`, or the error of `r`: the shape of
      a loop that appends to a list and may raise part-way. */
  function Prepend<T, E>(prefix: seq<T>, r: Result<seq<T>, E>): Result<seq<T>, E>
  {
    match r
    case Ok(rest) => Ok(prefix + rest)
    case Err(e) => Err(e)
  }

  lemma PrependNothing<T, E>(r: Result<seq<T>, E>)
    ensures Prepend([], r) == r
    ensures r.Ok? ==> Prepend([], r) == Ok(r.value)
  {
    if r.Ok? {
      assert [] + r.value == r.value;
    }
  }

  lemma PrependTwice<T, E>(a: seq<T>, b: seq<T>, r: Result<seq<T>, E>)
    ensures Prepend(a, Prepend(b, r)) == Prepend(a + b, r)
  {
    if r.Ok? {
      assert a + (b + r.value) == (a + b) + r.value;
    }
  }

  /** Concatenation regroups freely. */
  lemma AppendAssociates<T>(a: seq<T>, b: seq<T>, c: seq<T>)
    ensures a + (b + c) == (a + b) + c
  {
  }
  /** `f` applied to each element in order, or the first failure: the
      shape of a loop that converts a list and may raise part-way. */
  function MapResult<A, B, E>(xs: seq<A>, f: A -> Result<B, E>): Result<seq<B>, E>
  {
    if xs == [] then Ok([])
    else
      var y :- f(xs[0]);
      Prepend([y], MapResult(xs[1..], f))
  }

  /** `r` holds one converted value per element, in order, exactly when
      every element converts; otherwise it is the error of the first
      element that does not. */
  ghost predicate Mapped<A, B, E>(xs: seq<A>, f: A -> Result<B, E>, r: Result<seq<B>, E>)
  {
    && (r.Ok? <==> forall k :: 0 <= k < |xs| ==> f(xs[k]).Ok?)
    && (r.Ok? ==> |r.value| == |xs| && forall k :: 0 <= k < |xs| ==> r.value[k] == f(xs[k]).value)
    && (r.Err? ==> exists k :: FirstFailure(xs, f, k) && r.error == f(xs[k]).error)
  }

  /** Element `k` is the first whose conversion fails. */
  ghost predicate FirstFailure<A, B, E>(xs: seq<A>, f: A -> Result<B, E>, k: int)
  {
    && 0 <= k < |xs| && f(xs[k]).Err?
    && forall j :: 0 <= j < k ==> f(xs[j]).Ok?
  }

  lemma {:induction false} MapResultMaps<A, B, E>(xs: seq<A>, f: A -> Result<B, E>)
    ensures Mapped(xs, f, MapResult(xs, f))
  {
    if xs != [] {
      MapResultMaps(xs[1..], f);
      MapResultStep(xs, f, f(xs[0]), MapResult(xs[1..], f));
    }
  }

  lemma MapResultStep<A, B, E>(xs: seq<A>, f: A -> Result<B, E>, first: Result<B, E>, rest: Result<seq<B>, E>)
    requires xs != [] && first == f(xs[0]) && rest == MapResult(xs[1..], f)
    requires Mapped(xs[1..], f, rest)
    ensures Mapped(xs, f, MapResult(xs, f))
  {
    forall k | 0 < k < |xs| ensures xs[k] == xs[1..][k - 1] { }
    if first.Err? {
      assert FirstFailure(xs, f, 0);
    } else if rest.Err? {
      var k :| FirstFailure(xs[1..], f, k) && rest.error == f(xs[1..][k]).error;
      assert FirstFailure(xs, f, k + 1);
    } else {
      var ys := [first.value] + rest.value;
      assert MapResult(xs, f) == Ok(ys);
      forall k | 0 < k < |xs| ensures ys[k] == rest.value[k - 1] { }
    }
  }
}
