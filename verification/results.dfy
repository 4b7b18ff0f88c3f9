/** Failure-compatible result types shared by every module of the model.

    The services signal a rejected request by throwing an exception that
    carries a human-readable message; the model returns `Err(message)`
    instead, so every error path is an ordinary value that contracts can
    talk about. */
module Results {

  /** Either a value or the message of the exception the source throws. */
  datatype Result<+T> = Ok(value: T) | Err(error: string) {

    predicate IsFailure() {
      Err?
    }

    function PropagateFailure<U>(): Result<U>
      requires Err?
    {
      Err(error)
    }

    function Extract(): T
      requires Ok?
    {
      value
    }
  }

  /** A value that may be absent; stands for a Java reference that may be null. */
  datatype Option<+T> = None | Some(value: T) {

    function GetOr(default: T): T {
      if Some? then value else default
    }
  }

  /** No element occurs twice. */
  predicate Distinct<T(==)>(xs: seq<T>) {
    forall a, b :: 0 <= a < b < |xs| ==> xs[a] != xs[b]
  }

  /** Applies a fallible step to every element, in order; the first failure
      stops the walk and becomes the result. */
  function MapResult<A, B>(xs: seq<A>, f: A -> Result<B>): (r: Result<seq<B>>)
    ensures r.Ok? <==> forall i :: 0 <= i < |xs| ==> f(xs[i]).Ok?
    ensures r.Ok? ==> |r.value| == |xs| && forall i :: 0 <= i < |xs| ==> r.value[i] == f(xs[i]).value
    ensures r.Err? ==> exists i :: 0 <= i < |xs| && f(xs[i]).Err? && r.error == f(xs[i]).error
  {
    if xs == [] then Ok([])
    else
      var head :- f(xs[0]);
      var tail :- MapResult(xs[1..], f);
      assert forall i :: 1 <= i < |xs| ==> xs[i] == xs[1..][i - 1];
      Ok([head] + tail)
  }

  /** Like `MapResult` for a step that also sees the element's position,
      starting at position `from`. */
  function MapIndexed<A, B>(xs: seq<A>, f: (A, nat) -> Result<B>, from: nat): (r: Result<seq<B>>)
    requires from <= |xs|
    ensures r.Ok? <==> forall i :: from <= i < |xs| ==> f(xs[i], i).Ok?
    ensures r.Ok? ==> |r.value| == |xs| - from
                      && forall i :: from <= i < |xs| ==> r.value[i - from] == f(xs[i], i).value
    decreases |xs| - from
  {
    if from == |xs| then Ok([])
    else
      var head :- f(xs[from], from);
      var tail :- MapIndexed(xs, f, from + 1);
      Ok([head] + tail)
  }

  /** A failed walk reports the failure of its first failing element. */
  lemma {:induction false} MapIndexedFirstFailure<A, B>(xs: seq<A>, f: (A, nat) -> Result<B>, from: nat)
    requires from <= |xs| && MapIndexed(xs, f, from).Err?
    ensures exists i :: from <= i < |xs| && f(xs[i], i) == Err(MapIndexed(xs, f, from).error)
                        && forall k :: from <= k < i ==> f(xs[k], k).Ok?
    decreases |xs| - from
  {
    if f(xs[from], from).Ok? {
      MapIndexedFirstFailure(xs, f, from + 1);
    }
  }

  /** A walk whose step keeps every element as it is returns the elements. */
  lemma MapIndexedFixed<A>(xs: seq<A>, f: (A, nat) -> Result<A>, from: nat)
    requires from <= |xs| && forall i :: from <= i < |xs| ==> f(xs[i], i) == Ok(xs[i])
    ensures MapIndexed(xs, f, from) == Ok(xs[from..])
  {
    var r := MapIndexed(xs, f, from);
    assert r.Ok?;
    assert forall i :: 0 <= i < |xs| - from ==> r.value[i] == f(xs[from + i], from + i).value == xs[from..][i];
    assert r.value == xs[from..];
  }
}
