/** Failure-carrying datatypes used throughout the model in place of
    JavaScript's `null`/`undefined` and thrown exceptions. */
module Wrappers {

  /** A value that may be absent (`null` or `undefined` in the source). */
  datatype Option<+T> = None | Some(value: T) {

    function GetOr(default: T): T {
      match this
      case Some(v) => v
      case None => default
    }
  }

  /** The outcome of an operation that may throw: `Failure` carries the error. */
  datatype Result<+R, +E> = Success(value: R) | Failure(error: E) {

    predicate IsFailure() {
      Failure?
    }

    function PropagateFailure<U>(): Result<U, E>
      requires Failure?
    {
      Failure(error)
    }

    function Extract(): R
      requires Success?
    {
      value
    }
  }

  /** JavaScript truthiness of an optional string: present and non-empty. */
  predicate Truthy(o: Option<string>) {
    o.Some? && o.value != ""
  }

  /** `a || b` over optional strings: `a` when truthy, otherwise `b`. */
  function OrElse(a: Option<string>, b: Option<string>): (r: Option<string>)
    ensures Truthy(a) ==> r == a
    ensures !Truthy(a) ==> r == b
  {
    if Truthy(a) then a else b
  }

  /** `a || fallback` for an optional string with a string fallback. */
  function OrDefault(a: Option<string>, fallback: string): (r: string)
    ensures Truthy(a) ==> r == a.value
    ensures !Truthy(a) ==> r == fallback
  {
    if Truthy(a) then a.value else fallback
  }

  /** The present values of `s`, in order (`.filter(Boolean)` after a
      `.map` that yields `null` for the entries to drop). */
  function Somes<T>(s: seq<Option<T>>): (r: seq<T>)
    ensures |r| <= |s|
  {
    if |s| == 0 then []
    else (if s[0].Some? then [s[0].value] else []) + Somes(s[1..])
  }

  /** The position in `s` that the `i`-th value of `Somes(s)` comes from. */
  ghost function SomesOrigin<T>(s: seq<Option<T>>, i: nat): (k: nat)
    requires i < |Somes(s)|
    ensures k < |s| && s[k] == Some(Somes(s)[i])
    decreases |s|
  {
    if s[0].Some? && i == 0 then 0
    else
      var j := if s[0].Some? then i - 1 else i;
      assert Somes(s)[i] == Somes(s[1..])[j];
      1 + SomesOrigin(s[1..], j)
  }

  /** Later values come from later positions. */
  lemma {:induction false} SomesOriginIncreasing<T>(s: seq<Option<T>>, i: nat, j: nat)
    requires i < j < |Somes(s)|
    ensures SomesOrigin(s, i) < SomesOrigin(s, j)
    decreases |s|
  {
    if !(s[0].Some? && i == 0) {
      var d := if s[0].Some? then 1 else 0;
      assert Somes(s)[i] == Somes(s[1..])[i - d];
      assert Somes(s)[j] == Somes(s[1..])[j - d];
      SomesOriginIncreasing(s[1..], i - d, j - d);
    }
  }

  /** Every present value of `s` is kept. */
  lemma {:induction false} SomesComplete<T>(s: seq<Option<T>>, k: nat)
    requires k < |s| && s[k].Some?
    ensures s[k].value in Somes(s)
    decreases k
  {
    if k > 0 {
      assert s[1..][k - 1] == s[k];
      SomesComplete(s[1..], k - 1);
    }
  }
}
