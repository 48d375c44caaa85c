/** Shared vocabulary: optional values, results and the errors the parsers raise. */
module Base {

  /** A value that may be missing (a JavaScript `undefined` / `null`, or an absent key). */
  datatype Option<+T> = None | Some(value: T)

  /** The outcome of a parse: a value, or the error the JavaScript code throws. */
  datatype Result<+T> = Success(value: T) | Failure(error: Error) {

    predicate IsFailure() {
      Failure?
    }

    function PropagateFailure<U>(): Result<U>
      requires Failure?
    {
      Failure(error)
    }

    function Extract(): T
      requires Success?
    {
      value
    }
  }

  /** Everything the modelled code can throw. */
  datatype Error =
      /** `value.match(GRAMMAR)` returned null and the code indexed into it (a TypeError). */
    | Malformed(tag: string, value: string)
      /** `Invalid type "<name>" - Type must be: ...` from set-type.js. */
    | InvalidType(name: string)
      /** `Invalid Param - Nested objects are not supported.` from params.js. */
    | NestedObjectsUnsupported
      /** A nested param whose root title is absent: `objectRoot` is undefined (a TypeError). */
    | RootNotFound(root: string)
      /** A `root[].sub` param whose root has no `items`: `objectRoot.items` is undefined (a TypeError). */
    | RootWithoutItems(root: string)

  /**
   * A `map` whose callback may throw: every result in order, or the error of the first
   * element that throws (the later elements are never reached).
   */
  function Collect<T>(rs: seq<Result<T>>): (r: Result<seq<T>>)
    ensures r.Success? ==> |r.value| == |rs|
    decreases |rs|
  {
    if |rs| == 0 then Success([])
    else
      match Collect(rs[..|rs| - 1])
      case Failure(e) => Failure(e)
      case Success(vs) =>
        match rs[|rs| - 1]
        case Failure(e) => Failure(e)
        case Success(v) => Success(vs + [v])
  }

  /** One more element: the map goes on with its value, or throws its error. */
  lemma CollectStep<T>(rs: seq<Result<T>>, i: nat, vs: seq<T>)
    requires i < |rs| && Collect(rs[..i]) == Success(vs)
    ensures rs[i].Success? ==> Collect(rs[..i + 1]) == Success(vs + [rs[i].value])
    ensures rs[i].Failure? ==> Collect(rs[..i + 1]) == Failure(rs[i].error)
  {
    assert rs[..i + 1][..i] == rs[..i];
  }

  /** Once a prefix throws, the whole map throws the same error. */
  lemma {:induction false} CollectFailureSticks<T>(rs: seq<Result<T>>, n: nat)
    requires n <= |rs| && Collect(rs[..n]).Failure?
    ensures Collect(rs) == Collect(rs[..n])
    decreases |rs| - n
  {
    if n < |rs| {
      assert rs[..n + 1][..n] == rs[..n];
      CollectFailureSticks(rs, n + 1);
    } else {
      assert rs[..n] == rs;
    }
  }

  /** The map succeeds exactly when no element throws, and then keeps every value in order. */
  lemma {:induction false} CollectSuccess<T>(rs: seq<Result<T>>)
    ensures Collect(rs).Success? <==> forall i :: 0 <= i < |rs| ==> rs[i].Success?
    ensures Collect(rs).Success? ==> forall i :: 0 <= i < |rs| ==> Collect(rs).value[i] == rs[i].value
    decreases |rs|
  {
    if |rs| > 0 {
      var init := rs[..|rs| - 1];
      CollectSuccess(init);
      assert forall i :: 0 <= i < |init| ==> init[i] == rs[i];
    }
  }

  /** When the map throws, it throws the error of the first element that fails. */
  lemma CollectFirstError<T>(rs: seq<Result<T>>, n: nat)
    requires n < |rs| && rs[n].Failure?
    requires forall i :: 0 <= i < n ==> rs[i].Success?
    ensures Collect(rs) == Failure(rs[n].error)
  {
    var pre := rs[..n];
    CollectSuccess(pre);
    assert forall i :: 0 <= i < n ==> pre[i] == rs[i];
    assert rs[..n + 1][..n] == pre;
    CollectFailureSticks(rs, n + 1);
  }
}
