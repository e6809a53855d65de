/** Failure-compatible result types shared by the menu parsers. */
module Wrappers {

  /** A value that may be absent, like Python's `None`. */
  datatype Option<+T> = None | Some(value: T)

  /** The outcome of an operation that may raise: a value, or the error that aborts it. */
  datatype Result<+R, +E> = Success(value: R) | Failure(error: E)

  /** The first index at or after `from` whose candidate is present: the leftmost match of a search. */
  function FirstSome<T>(xs: seq<Option<T>>, from: nat): (r: Option<nat>)
    ensures r.Some? ==> from <= r.value < |xs| && xs[r.value].Some?
    ensures r.Some? ==> forall j :: from <= j < r.value ==> xs[j].None?
    ensures r.None? ==> forall j :: from <= j < |xs| ==> xs[j].None?
    decreases |xs| - from
  {
    if from >= |xs| then None
    else if xs[from].Some? then Some(from)
    else FirstSome(xs, from + 1)
  }

  /** The first present element is at `o` when it is present and nothing from `from` up to it is. */
  lemma {:induction false} FirstSomeIs<T>(xs: seq<Option<T>>, from: nat, o: nat)
    requires from <= o < |xs| && xs[o].Some?
    requires forall j :: from <= j < o ==> xs[j].None?
    ensures FirstSome(xs, from) == Some(o)
    decreases o - from
  {
    if from < o {
      FirstSomeIs(xs, from + 1, o);
    }
  }
}
