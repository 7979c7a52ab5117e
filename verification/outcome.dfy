/** Optional values and the exception-carrying outcome of an extraction step.

    The Kotlin code signals three kinds of exceptions that matter here:
    `FunctionInfoPropertyNotImplementedException` (an `UnsupportedOperationException`),
    `IllegalStateException` (raised by `throw`) and `IllegalArgumentException`
    (raised by `require`). `Outcome` carries each of them as its own variant, so
    that "not implemented by this backend" stays distinct from a `None` value.
 */
module Outcomes {

  datatype Option<+T> = None | Some(value: T)

  datatype Outcome<+T> =
    | Ok(value: T)
    | NotImplemented(property: string)
    | IllegalState(message: string)
    | IllegalArgument(message: string)
  {
    predicate IsFailure() {
      !Ok?
    }

    /** Re-raises the same exception at a different value type. */
    function PropagateFailure<U>(): (r: Outcome<U>)
      requires !Ok?
      ensures SameFailure(this, r)
    {
      match this
      case NotImplemented(p) => NotImplemented(p)
      case IllegalState(m) => IllegalState(m)
      case IllegalArgument(m) => IllegalArgument(m)
    }

    function Extract(): T
      requires Ok?
    {
      value
    }
  }

  /** Two outcomes carry the same exception (their value types may differ). */
  predicate SameFailure<T, U>(a: Outcome<T>, b: Outcome<U>) {
    match a
    case Ok(_) => false
    case NotImplemented(p) => b == NotImplemented(p)
    case IllegalState(m) => b == IllegalState(m)
    case IllegalArgument(m) => b == IllegalArgument(m)
  }

  /** Runs a sequence of steps as Kotlin's `map` does: all values in order
      when every step succeeds, otherwise the exception of the first failing
      step. */
  function Sequence<T>(steps: seq<Outcome<T>>): (r: Outcome<seq<T>>)
    ensures r.Ok? <==> forall k :: 0 <= k < |steps| ==> steps[k].Ok?
    ensures r.Ok? ==> |r.value| == |steps|
    ensures r.Ok? ==> forall k :: 0 <= k < |steps| ==> r.value[k] == steps[k].value
    ensures !r.Ok? ==>
      exists k :: 0 <= k < |steps| && SameFailure(steps[k], r) && (forall j :: 0 <= j < k ==> steps[j].Ok?)
  {
    if steps == [] then Ok([])
    else if !steps[0].Ok? then steps[0].PropagateFailure()
    else
      var rest := Sequence(steps[1..]);
      if !rest.Ok? then
        var k :| 0 <= k < |steps[1..]| && SameFailure(steps[1..][k], rest) &&
          forall j :: 0 <= j < k ==> steps[1..][j].Ok?;
        assert steps[k + 1] == steps[1..][k];
        assert forall j :: 1 <= j < k + 1 ==> steps[j] == steps[1..][j - 1];
        rest
      else
        assert forall k :: 1 <= k < |steps| ==> steps[k] == steps[1..][k - 1];
        Ok([steps[0].value] + rest.value)
  }

  /** When every failing step raises the same `IllegalArgumentException`,
      so does the whole sequence. */
  lemma {:induction false} SequenceFailsOnlyWith<T>(steps: seq<Outcome<T>>, message: string)
    requires forall k :: 0 <= k < |steps| ==> steps[k].Ok? || steps[k] == IllegalArgument(message)
    ensures Sequence(steps).Ok? || Sequence(steps) == IllegalArgument(message)
    decreases |steps|
  {
    if steps != [] && steps[0].Ok? {
      assert forall k :: 0 <= k < |steps[1..]| ==> steps[1..][k] == steps[k + 1];
      SequenceFailsOnlyWith(steps[1..], message);
    }
  }
}
