/** Failure-compatible result and option types shared by the model. */
module Results {

  /** A value that may be absent, such as the result of a DOM lookup. */
  datatype Option<+T> = None | Some(value: T)

  /** The outcome of an operation that may raise: a value, or the error it raises. */
  datatype Result<+T, +E> = Ok(value: T) | Err(error: E) {

    predicate IsFailure() {
      Err?
    }

    function PropagateFailure<U>(): Result<U, E>
      requires Err?
    {
      Err(error)
    }

    function Extract(): T
      requires Ok?
    {
      value
    }
  }

  /** Applies `f` to each element in order, as a list comprehension does; the
      first element on which `f` fails makes the whole mapping fail. */
  function MapAll<A, B, E>(f: A -> Result<B, E>, xs: seq<A>): (r: Result<seq<B>, E>)
    ensures r.Ok? <==> forall k :: 0 <= k < |xs| ==> f(xs[k]).Ok?
    ensures r.Ok? ==> |r.value| == |xs| && forall k :: 0 <= k < |xs| ==> f(xs[k]) == Ok(r.value[k])
  {
    if xs == [] then Ok([])
    else
      var head :- f(xs[0]);
      var tail :- MapAll(f, xs[1..]);
      assert forall k :: 0 < k < |xs| ==> xs[k] == xs[1..][k - 1];
      Ok([head] + tail)
  }

  /** A failed mapping carries the error of the first element on which `f`
      fails; `f` succeeds on every element before it. */
  lemma {:induction false} MapAllFirstError<A, B, E>(f: A -> Result<B, E>, xs: seq<A>)
    requires MapAll(f, xs).Err?
    ensures exists k :: (0 <= k < |xs| && f(xs[k]) == Err(MapAll(f, xs).error)
      && forall j :: 0 <= j < k ==> f(xs[j]).Ok?)
  {
    if f(xs[0]).Ok? {
      MapAllFirstError(f, xs[1..]);
      var k :| 0 <= k < |xs[1..]| && f(xs[1..][k]) == Err(MapAll(f, xs[1..]).error)
        && forall j :: 0 <= j < k ==> f(xs[1..][j]).Ok?;
      assert xs[k + 1] == xs[1..][k];
      assert forall j :: 0 < j < k + 1 ==> xs[j] == xs[1..][j - 1];
    }
  }
}
