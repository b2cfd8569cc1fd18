/** Option and Result, the two failure-carrying datatypes every module uses. */
module Wrappers {

  datatype Option<+T> = None | Some(value: T) {
    predicate IsFailure() { None? }

    function PropagateFailure<U>(): Option<U>
      requires None?
    {
      None
    }

    function Extract(): T
      requires Some?
    {
      value
    }
  }

  /** A Success/Failure datatype; `E` is the exception the source would raise. */
  datatype Result<+R, +E> = Success(value: R) | Failure(error: E) {
    predicate IsFailure() { Failure? }

    function PropagateFailure<U>(): Result<U, E>
      requires Failure?
    {
      Failure(error)
    }

    function Extract(): R
      requires Success?
    {
      value
    }
  }

  /** Applies `f` to every element in order and stops at the first failure (a loop that pushes
      `f(x)` for each `x` and lets the first exception escape). */
  function MapResult<A, B, E>(f: A -> Result<B, E>, xs: seq<A>): Result<seq<B>, E>
    decreases |xs|
  {
    if xs == [] then Success([])
    else
      var n := |xs| - 1;
      var prev :- MapResult(f, xs[..n]);
      var y :- f(xs[n]);
      Success(prev + [y])
  }

  /** The map succeeds exactly when `f` succeeds on every element. */
  lemma {:induction false} MapResultSucceeds<A, B, E>(f: A -> Result<B, E>, xs: seq<A>)
    ensures MapResult(f, xs).Success? <==> forall k :: 0 <= k < |xs| ==> f(xs[k]).Success?
    decreases |xs|
  {
    if xs != [] {
      var n := |xs| - 1;
      MapResultSucceeds(f, xs[..n]);
      assert forall k :: 0 <= k < n ==> xs[..n][k] == xs[k];
    }
  }

  /** A successful map holds `f`'s value of each element, in order. */
  lemma {:induction false} MapResultValue<A, B, E>(f: A -> Result<B, E>, xs: seq<A>)
    requires MapResult(f, xs).Success?
    ensures |MapResult(f, xs).value| == |xs|
    ensures forall k :: 0 <= k < |xs| ==> f(xs[k]) == Success(MapResult(f, xs).value[k])
    decreases |xs|
  {
    if xs != [] {
      var n := |xs| - 1;
      MapResultValue(f, xs[..n]);
      assert forall k :: 0 <= k < n ==> xs[..n][k] == xs[k];
    }
  }

  /** Once a prefix fails, the whole map fails with the same error. */
  lemma {:induction false} MapResultPrefixFailure<A, B, E>(f: A -> Result<B, E>, xs: seq<A>, i: nat)
    requires i <= |xs| && MapResult(f, xs[..i]).Failure?
    ensures MapResult(f, xs) == MapResult(f, xs[..i])
    decreases |xs| - i
  {
    if i < |xs| {
      var n := |xs| - 1;
      assert xs[..n][..i] == xs[..i];
      MapResultPrefixFailure(f, xs[..n], i);
    } else {
      assert xs[..i] == xs;
    }
  }

  /** A failed map fails with the error of an element `f` fails on. */
  lemma {:induction false} MapResultFailure<A, B, E>(f: A -> Result<B, E>, xs: seq<A>)
    requires MapResult(f, xs).Failure?
    ensures exists k :: 0 <= k < |xs| && f(xs[k]).Failure? && MapResult(f, xs).error == f(xs[k]).error
    decreases |xs|
  {
    var n := |xs| - 1;
    if MapResult(f, xs[..n]).Failure? {
      MapResultFailure(f, xs[..n]);
      var k :| 0 <= k < n && f(xs[..n][k]).Failure? && MapResult(f, xs[..n]).error == f(xs[..n][k]).error;
      assert xs[..n][k] == xs[k];
    } else {
      assert f(xs[n]).Failure?;
    }
  }

  /** The index of the first element from `from` on that `f` accepts, None when none does; the
      first failure of `f` escapes. */
  function FindFirst<A, E>(f: A -> Result<bool, E>, xs: seq<A>, from: nat): (r: Result<Option<nat>, E>)
    requires from <= |xs|
    ensures r.Success? && r.value.Some? ==> from <= r.value.value < |xs| && f(xs[r.value.value]) == Success(true)
    decreases |xs| - from
  {
    if from == |xs| then Success(None)
    else
      match f(xs[from])
      case Failure(e) => Failure(e)
      case Success(true) => Success(Some(from))
      case Success(false) => FindFirst(f, xs, from + 1)
  }

  /** Every element the search passed over was rejected: those before the one it found, or all
      from `from` on when it found none. */
  lemma {:induction false} FindFirstRejects<A, E>(f: A -> Result<bool, E>, xs: seq<A>, from: nat)
    requires from <= |xs|
    ensures var r := FindFirst(f, xs, from);
      r.Success? ==> forall j :: from <= j < (if r.value.Some? then r.value.value else |xs|) ==> f(xs[j]) == Success(false)
    decreases |xs| - from
  {
    if from < |xs| && f(xs[from]) == Success(false) {
      FindFirstRejects(f, xs, from + 1);
    }
  }
}
