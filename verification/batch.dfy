/**
 Loops over a sequence of items that the JavaScript code shares. In both
 generators `items.forEach(...)` writes one result per item, in order, and
 the first item that throws ends the run; what was written before stays
 written. `Each` is a plain `map` that cannot fail.
 */
module Batch {
  import opened Wrappers

  method UntilFailure<T, U, E>(f: T -> Result<U, E>, items: seq<T>) returns (done: seq<U>, completed: bool)
    ensures |done| <= |items|
    ensures forall i :: 0 <= i < |done| ==> f(items[i]) == Success(done[i])
    ensures completed <==> |done| == |items|
    ensures !completed ==> f(items[|done|]).Failure?
  {
    done := [];
    var i := 0;
    while i < |items|
      invariant 0 <= i <= |items| && |done| == i
      invariant forall k :: 0 <= k < i ==> f(items[k]) == Success(done[k])
    {
      var r := f(items[i]);
      if r.Failure? {
        return done, false;
      }
      done := done + [r.value];
      i := i + 1;
    }
    completed := true;
  }

  /** `items.map(f)`: `f` applied to every item, in order. */
  function Each<T, U>(f: T -> U, items: seq<T>): (results: seq<U>)
    ensures |results| == |items|
    ensures forall i :: 0 <= i < |items| ==> results[i] == f(items[i])
  {
    if items == [] then [] else [f(items[0])] + Each(f, items[1..])
  }

  /** Mapping a concatenation maps each part. */
  lemma {:induction false} EachAppend<T, U>(f: T -> U, a: seq<T>, b: seq<T>)
    ensures Each(f, a + b) == Each(f, a) + Each(f, b)
  {
    if a == [] {
      assert a + b == b;
    } else {
      assert (a + b)[1..] == a[1..] + b;
      EachAppend(f, a[1..], b);
    }
  }

  /** The position of the first element that `f` maps to `key`
      (`Array.prototype.find`), or `|items|` when there is none. */
  function FirstWith<T, K(==)>(f: T -> K, items: seq<T>, key: K): (k: nat)
    ensures k <= |items|
    ensures forall j :: 0 <= j < k ==> f(items[j]) != key
    ensures k < |items| ==> f(items[k]) == key
  {
    if items == [] then 0
    else if f(items[0]) == key then 0
    else 1 + FirstWith(f, items[1..], key)
  }
}
