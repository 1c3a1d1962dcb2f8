/** Option and Result, the model's stand-ins for Go's nil pointers and (value, error) pairs. */
module Wrappers {

  datatype Option<+T> = None | Some(value: T)

  datatype Result<+T, +E> = Ok(value: T) | Err(error: E) {
    predicate IsFailure() { Err? }
  }

  /** The first present value in `xs` at position `i` or later. */
  function FirstSome<T>(xs: seq<Option<T>>, i: nat): (r: Option<T>)
    requires i <= |xs|
    ensures r.Some? ==> exists j :: i <= j < |xs| && xs[j] == r
    decreases |xs| - i
  {
    if i == |xs| then None
    else if xs[i].Some? then xs[i]
    else FirstSome(xs, i + 1)
  }

  /** FirstSome finds the value that comes first, and finds one whenever there is one. */
  lemma {:induction false} FirstSomeSpec<T>(xs: seq<Option<T>>, i: nat)
    requires i <= |xs|
    ensures FirstSome(xs, i).None? <==> forall j :: i <= j < |xs| ==> xs[j].None?
    ensures FirstSome(xs, i).Some? ==>
              exists j :: i <= j < |xs| && xs[j] == FirstSome(xs, i)
                          && forall k :: i <= k < j ==> xs[k].None?
    decreases |xs| - i
  {
    if i < |xs| && xs[i].None? {
      FirstSomeSpec(xs, i + 1);
      if FirstSome(xs, i + 1).Some? {
        var j :| i + 1 <= j < |xs| && xs[j] == FirstSome(xs, i + 1)
                 && forall k :: i + 1 <= k < j ==> xs[k].None?;
        assert forall k :: i <= k < j ==> xs[k].None?;
      }
    }
  }
}
