/** Failure-carrying datatypes used in place of Java's null and thrown exceptions. */
module Wrappers {

  /** A nullable value: `None` stands for Java's `null`. */
  datatype Option<+T> = None | Some(value: T)

  /** The outcome of a call that either returns a value or throws `error`. */
  datatype Result<+R, +E> = Success(value: R) | Failure(error: E)

  /** The outcome of a `void` call that either returns normally or throws `error`. */
  datatype Outcome<+E> = Pass | Fail(error: E)

  /** Runs the checks of `os` in order and stops at the first one that fails. */
  function FirstFailure<E>(os: seq<Outcome<E>>): (o: Outcome<E>)
    ensures o.Pass? <==> forall i :: 0 <= i < |os| ==> os[i].Pass?
    ensures o.Fail? ==> exists i :: 0 <= i < |os| && os[i] == o && forall j :: 0 <= j < i ==> os[j].Pass?
  {
    if os == [] then Pass
    else if os[0].Fail? then os[0]
    else
      var rest := FirstFailure(os[1..]);
      assert rest.Fail? ==> exists i :: 0 <= i < |os[1..]| && os[1..][i] == rest
                                        && forall j :: 0 <= j < i ==> os[1..][j].Pass?;
      rest
  }
}
