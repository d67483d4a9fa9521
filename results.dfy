/**
 * A loop that produces one result per step and aborts at the first
 * exception: its outcome is the list of all results, or the first error.
 */
module Results {
  import opened Wrappers

  /** The outcome of running the steps in order: all values, or the first failure. */
  function Collect<R, E>(rs: seq<Result<R, E>>): Result<seq<R>, E>
  {
    if rs == [] then Success([])
    else
      match Collect(rs[..|rs| - 1])
      case Failure(e) => Failure(e)
      case Success(vs) =>
        match rs[|rs| - 1]
        case Failure(e) => Failure(e)
        case Success(v) => Success(vs + [v])
  }

  /** One more step: it only runs when every earlier step succeeded. */
  lemma CollectSnoc<R, E>(rs: seq<Result<R, E>>, i: nat)
    requires i < |rs|
    ensures Collect(rs[..i + 1]) ==
      match Collect(rs[..i])
      case Failure(e) => Failure(e)
      case Success(vs) =>
        match rs[i]
        case Failure(e) => Failure(e)
        case Success(v) => Success(vs + [v])
  {
    assert rs[..i + 1][..i] == rs[..i];
  }

  /** Once a prefix of the steps has failed, the later steps do not matter. */
  lemma {:induction false} CollectStops<R, E>(rs: seq<Result<R, E>>, i: nat)
    requires i <= |rs| && Collect(rs[..i]).Failure?
    ensures Collect(rs) == Collect(rs[..i])
    decreases |rs|
  {
    if i < |rs| {
      assert rs[..i] == rs[..|rs| - 1][..i];
      CollectStops(rs[..|rs| - 1], i);
    } else {
      assert rs[..i] == rs;
    }
  }

  /** All steps succeed exactly when the run succeeds; then it yields every value, in order. */
  lemma {:induction false} CollectSuccess<R, E>(rs: seq<Result<R, E>>)
    ensures Collect(rs).Success? <==> forall j :: 0 <= j < |rs| ==> rs[j].Success?
    ensures Collect(rs).Success? ==>
      |Collect(rs).value| == |rs| && forall j :: 0 <= j < |rs| ==> Collect(rs).value[j] == rs[j].value
  {
    if rs != [] {
      var init := rs[..|rs| - 1];
      CollectSuccess(init);
      assert forall j :: 0 <= j < |init| ==> init[j] == rs[j];
      if Collect(init).Failure? {
        var j :| 0 <= j < |init| && !init[j].Success?;
        assert !rs[j].Success?;
      }
    }
  }

  /** A failed run reports the error of its first failing step. */
  lemma {:induction false} CollectFirstFailure<R, E>(rs: seq<Result<R, E>>)
    requires Collect(rs).Failure?
    ensures exists j ::
              && 0 <= j < |rs|
              && rs[j] == Failure(Collect(rs).error)
              && forall j' :: 0 <= j' < j ==> rs[j'].Success?
  {
    var init := rs[..|rs| - 1];
    assert forall j :: 0 <= j < |init| ==> init[j] == rs[j];
    if Collect(init).Failure? {
      CollectFirstFailure(init);
      var j :| 0 <= j < |init| && init[j] == Failure(Collect(init).error) &&
        (forall j' :: 0 <= j' < j ==> init[j'].Success?);
      assert rs[j] == Failure(Collect(rs).error);
    } else {
      CollectSuccess(init);
      assert rs[|rs| - 1] == Failure(Collect(rs).error);
    }
  }
}
