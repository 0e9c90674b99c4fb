/** Outcomes of the scan-text parser. `Option` mirrors Rust's `Option`;
    a `Result` failure is the parser giving up with a `panic!`. */
module Wrappers {

  datatype Option<+T> = None | Some(value: T)

  datatype Result<+R, +E> = Success(value: R) | Failure(error: E) {

    predicate IsFailure() {
      Failure?
    }

    function PropagateFailure<U>(): Result<U, E>
      requires Failure?
    {
      Failure(error)
    }

    function Extract(): R
      requires Success?
    {
      value
    }
  }

  /** The values of a sequence of results, in order, or the first failure
      among them. */
  function Collect<R, E>(rs: seq<Result<R, E>>): (r: Result<seq<R>, E>)
    ensures r.Success? ==> |r.value| == |rs|
    decreases |rs|
  {
    if rs == [] then Success([])
    else
      var first :- rs[0];
      var rest :- Collect(rs[1..]);
      Success([first] + rest)
  }

  /** `Collect` succeeds exactly when every result does, and then holds their
      values; otherwise it carries the error of the first failure. */
  lemma {:induction false} CollectSpec<R, E>(rs: seq<Result<R, E>>)
    ensures var r := Collect(rs);
      r.Success? ==> forall i :: 0 <= i < |rs| ==> rs[i] == Success(r.value[i])
    ensures Collect(rs).Success? <==> forall i :: 0 <= i < |rs| ==> rs[i].Success?
    ensures var r := Collect(rs);
      r.Failure? ==> exists i :: 0 <= i < |rs| && rs[i] == Failure(r.error) && forall j :: 0 <= j < i ==> rs[j].Success?
    decreases |rs|
  {
    if rs != [] {
      var tail := rs[1..];
      CollectSpec(tail);
      assert forall i :: 0 < i < |rs| ==> rs[i] == tail[i - 1];
      if rs[0].Failure? {
        assert rs[0] == Failure(Collect(rs).error);
      } else if Collect(tail).Failure? {
        var i :| 0 <= i < |tail| && tail[i] == Failure(Collect(tail).error)
          && forall j :: 0 <= j < i ==> tail[j].Success?;
        assert rs[i + 1] == Failure(Collect(rs).error);
        assert forall j :: 0 < j < i + 1 ==> rs[j] == tail[j - 1];
      } else {
        var vs := [rs[0].value] + Collect(tail).value;
        assert Collect(rs) == Success(vs);
        assert forall i :: 0 < i < |rs| ==> vs[i] == Collect(tail).value[i - 1];
      }
    }
  }

  /** Collecting one more result in front. */
  lemma CollectCons<R, E>(x: Result<R, E>, rs: seq<Result<R, E>>)
    ensures Collect([x] + rs) ==
      if x.Failure? then Failure(x.error)
      else if Collect(rs).Failure? then Failure(Collect(rs).error)
      else Success([x.value] + Collect(rs).value)
  {
    assert ([x] + rs)[0] == x;
    assert ([x] + rs)[1..] == rs;
  }

  /** `f` applied to every element, in order. */
  function Map<A, B>(f: A -> B, xs: seq<A>): (ys: seq<B>)
    ensures |ys| == |xs|
    ensures forall i :: 0 <= i < |xs| ==> ys[i] == f(xs[i])
  {
    seq(|xs|, i requires 0 <= i < |xs| => f(xs[i]))
  }

  lemma MapCons<A, B>(f: A -> B, x: A, xs: seq<A>)
    ensures Map(f, [x] + xs) == [f(x)] + Map(f, xs)
  {
  }
}
