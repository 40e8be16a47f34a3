/** The optional value and the success-or-error result used across the model. */
module Wrappers {
  datatype Option<+T> = None | Some(value: T)

  datatype Result<+T, +E> = Ok(value: T) | Err(error: E) {
    predicate IsFailure() {
      Err?
    }

    function PropagateFailure<U>(): Result<U, E>
      requires Err?
    {
      Err(error)
    }

    function Extract(): T
      requires Ok?
    {
      value
    }
  }

  /** Array.prototype.map with a function that may throw: the first error wins. */
  function TryMap<A, B, E>(items: seq<A>, f: A -> Result<B, E>): Result<seq<B>, E> {
    if items == [] then Ok([])
    else
      var before :- TryMap(items[..|items| - 1], f);
      var last :- f(items[|items| - 1]);
      Ok(before + [last])
  }

  lemma {:induction false} TryMapExactly<A, B, E>(items: seq<A>, f: A -> Result<B, E>)
    ensures TryMap(items, f).Ok? <==> forall i :: 0 <= i < |items| ==> f(items[i]).Ok?
    ensures TryMap(items, f).Ok? ==>
      && |TryMap(items, f).value| == |items|
      && forall i :: 0 <= i < |items| ==> Ok(TryMap(items, f).value[i]) == f(items[i])
  {
    if items != [] {
      var n := |items| - 1;
      TryMapExactly(items[..n], f);
      assert forall i :: 0 <= i < n ==> items[..n][i] == items[i];
    }
  }

  lemma {:induction false} TryMapAlike<A, B, E>(items: seq<A>, others: seq<A>, f: A -> Result<B, E>)
    requires |items| == |others| && forall i :: 0 <= i < |items| ==> f(items[i]) == f(others[i])
    ensures TryMap(items, f) == TryMap(others, f)
  {
    if items != [] {
      var n := |items| - 1;
      TryMapAlike(items[..n], others[..n], f);
    }
  }
}
