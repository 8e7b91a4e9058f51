/** Absence and failure, as the extension's functions return them: `null` or
    `undefined` for "nothing found", a thrown error for "the environment is
    broken". */
module Wrappers {

  /** A value that may be missing (`T | null` or `T | undefined` in the source). */
  datatype Option<+T> = None | Some(value: T) {

    /** The value, or `default` when missing (the source's `?? default`). */
    function GetOr(default: T): T {
      match this
      case Some(v) => v
      case None => default
    }
  }

  /** The present values, in order: a loop that pushes only what it found. */
  function Somes<T(==,!new)>(xs: seq<Option<T>>): (r: seq<T>)
    ensures |r| <= |xs|
    ensures forall x :: x in r <==> Some(x) in xs
  {
    if xs == [] then []
    else
      assert forall j :: 1 <= j < |xs| ==> xs[j] == xs[1..][j - 1];
      var rest := Somes(xs[1..]);
      if xs[0].Some? then [xs[0].value] + rest else rest
  }

  /** The first present result of `f` over `xs`: a loop that returns as
      soon as one element yields something. */
  function FirstSome<T, U>(xs: seq<T>, f: T -> Option<U>): (r: Option<U>)
    ensures r.Some? ==> exists i :: 0 <= i < |xs| && f(xs[i]) == r && forall j :: 0 <= j < i ==> f(xs[j]).None?
    ensures r.None? ==> forall j :: 0 <= j < |xs| ==> f(xs[j]).None?
  {
    if xs == [] then None
    else if f(xs[0]).Some? then f(xs[0])
    else
      assert forall j :: 1 <= j < |xs| ==> xs[j] == xs[1..][j - 1];
      FirstSome(xs[1..], f)
  }

  /** Either a value or the message of an error the source throws. */
  datatype Result<+T> = Success(value: T) | Failure(error: string)
}
