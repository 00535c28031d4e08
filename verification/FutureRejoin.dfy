/**
 Waiting for a shielded future while the waiting task itself may be cancelled any number of times.

 A schedule lists the moments at which the awaiting task wakes: each says whether the wake-up delivers
 a cancellation of the caller, and what the future's state is at that moment. Both can coincide.
 */
module FutureRejoin {
  import opened Common

  datatype Future<R, E> = Pending | Succeeded(result: R) | Failed(error: E) | Cancelled {
    predicate Done() { !Pending? }
  }

  datatype Wake<R, E> = Wake(byCaller: bool, future: Future<R, E>)

  /** How a helper ends. A raised cancellation may carry the future's failure as its cause. */
  datatype Ending<R, E> = Returned(result: R) | RaisedFailure(error: E) | RaisedCancellation(cause: Option<E>)

  /** The task wakes only for a caller's cancellation or because the future is done; once it is done the
      task is not suspended on it again. */
  ghost predicate ValidSchedule<R, E>(start: Future<R, E>, wakes: seq<Wake<R, E>>) {
    && (start.Done() ==> wakes == [])
    && (forall i :: 0 <= i < |wakes| && !wakes[i].byCaller ==> wakes[i].future.Done())
    && (forall i :: 0 <= i < |wakes| - 1 ==> !wakes[i].future.Done())
  }

  function FinalState<R, E>(start: Future<R, E>, wakes: seq<Wake<R, E>>): Future<R, E> {
    if wakes == [] then start else wakes[|wakes| - 1].future
  }

  ghost predicate CallerCancelled<R, E>(wakes: seq<Wake<R, E>>) {
    exists i :: 0 <= i < |wakes| && wakes[i].byCaller
  }

  /** How `rejoin_future_through_cancellation` ends, told from the outcome of the future and whether the
      caller was cancelled while waiting. */
  ghost function EndingOf<R, E>(start: Future<R, E>, wakes: seq<Wake<R, E>>): Option<Ending<R, E>> {
    match FinalState(start, wakes)
    case Pending => None
    case Cancelled => Some(RaisedCancellation(None))
    case Failed(e) => Some(if CallerCancelled(wakes) then RaisedCancellation(Some(e)) else RaisedFailure(e))
    case Succeeded(v) => Some(if CallerCancelled(wakes) then RaisedCancellation(None) else Returned(v))
  }

  /** `rejoin_future_through_cancellation`. No ending means that the task is still suspended. A result is
      returned only to a caller never cancelled, and a failure is never lost: it is raised, or it is the
      cause of the cancellation raised instead. */
  method RejoinThroughCancellation<R(!new), E(!new)>(start: Future<R, E>, wakes: seq<Wake<R, E>>) returns (r: Option<Ending<R, E>>)
    requires ValidSchedule(start, wakes)
    ensures r.Some? <==> FinalState(start, wakes).Done()
    ensures forall v :: r == Some(Returned(v)) <==> FinalState(start, wakes) == Succeeded(v) && !CallerCancelled(wakes)
    ensures forall e :: r == Some(RaisedFailure(e)) <==> FinalState(start, wakes) == Failed(e) && !CallerCancelled(wakes)
    ensures forall e :: r == Some(RaisedCancellation(Some(e))) <==> FinalState(start, wakes) == Failed(e) && CallerCancelled(wakes)
    ensures r == Some(RaisedCancellation(None)) <==>
              FinalState(start, wakes).Cancelled? || (FinalState(start, wakes).Succeeded? && CallerCancelled(wakes))
    ensures r == EndingOf(start, wakes)
  {
    var future, pending, i := start, false, 0;
    while !future.Done()
      invariant 0 <= i <= |wakes|
      invariant future == if i == 0 then start else wakes[i - 1].future
      invariant pending <==> exists j :: 0 <= j < i && wakes[j].byCaller
      invariant i > 0 && future.Done() && !future.Cancelled? ==> i == |wakes|
      invariant !future.Cancelled? || i == 0
      decreases |wakes| - i
    {
      if i == |wakes| {
        return None;
      }
      var w := wakes[i];
      assert w.future.Done() ==> i == |wakes| - 1;
      future := w.future;
      i := i + 1;
      if w.byCaller || future.Cancelled? {
        if future.Cancelled? {
          return Some(RaisedCancellation(None));
        }
        pending := true;
      } else if future.Failed? {
        break;
      }
    }
    match future {
      case Failed(e) => return Some(if pending then RaisedCancellation(Some(e)) else RaisedFailure(e));
      case Cancelled => return Some(RaisedCancellation(None));
      case Succeeded(v) => return Some(if pending then RaisedCancellation(None) else Returned(v));
    }
  }

  /** `drain_future_through_cancellation`, from wake `from` on: whether it ended, and that it swallows
      the future's outcome. */
  method DrainThroughCancellation<R, E>(start: Future<R, E>, wakes: seq<Wake<R, E>>, from: nat) returns (ended: bool)
    requires ValidSchedule(start, wakes) && from <= |wakes|
    ensures ended <==> FinalState(start, wakes).Done()
  {
    var future, i := if from == 0 then start else wakes[from - 1].future, from;
    while !future.Done()
      invariant from <= i <= |wakes|
      invariant future == if i == 0 then start else wakes[i - 1].future
      decreases |wakes| - i
    {
      if i == |wakes| {
        return false;
      }
      future := wakes[i].future;
      i := i + 1;
      if future.Failed? && !wakes[i - 1].byCaller {
        break;
      }
    }
    return true;
  }

  /** `rejoin_future_on_cancel`: likewise, but a failure of the future behind a cancellation is dropped. */
  method RejoinOnCancel<R(!new), E(!new)>(start: Future<R, E>, wakes: seq<Wake<R, E>>) returns (r: Option<Ending<R, E>>)
    requires ValidSchedule(start, wakes)
    ensures r.Some? <==> FinalState(start, wakes).Done()
    ensures forall v :: r == Some(Returned(v)) <==> FinalState(start, wakes) == Succeeded(v) && !CallerCancelled(wakes)
    ensures forall e :: r == Some(RaisedFailure(e)) <==> FinalState(start, wakes) == Failed(e) && !CallerCancelled(wakes)
    ensures r == Some(RaisedCancellation(None)) <==>
              FinalState(start, wakes).Cancelled? || (FinalState(start, wakes).Done() && CallerCancelled(wakes))
  {
    var future, byCaller := start, false;
    var used := 0;
    if !start.Done() {
      if wakes == [] {
        return None;
      }
      future, byCaller, used := wakes[0].future, wakes[0].byCaller, 1;
    }
    assert !byCaller && used == 1 ==> |wakes| == 1;
    assert byCaller ==> CallerCancelled(wakes);
    if byCaller || future.Cancelled? {
      var ended := DrainThroughCancellation(start, wakes, used);
      return if ended then Some(RaisedCancellation(None)) else None;
    }
    match future {
      case Succeeded(v) => return Some(Returned(v));
      case Failed(e) => return Some(RaisedFailure(e));
    }
  }

  /** Extra cancellations change nothing but the first: however many more come in while the task waits,
      it ends as it would have ended. */
  lemma RepeatedCancellation<R, E>(start: Future<R, E>, wakes: seq<Wake<R, E>>, extra: seq<Wake<R, E>>)
    requires ValidSchedule(start, wakes) && CallerCancelled(wakes)
    requires forall i :: 0 <= i < |extra| ==> extra[i] == Wake(true, Pending)
    ensures ValidSchedule(start, extra + wakes)
    ensures EndingOf(start, extra + wakes) == EndingOf(start, wakes)
  {
    var all := extra + wakes;
    assert FinalState(start, all) == FinalState(start, wakes);
    assert forall i :: 0 <= i < |wakes| ==> all[|extra| + i] == wakes[i];
    forall i | 0 <= i < |all| - 1 ensures !all[i].future.Done() {
      if i >= |extra| {
        assert all[i] == wakes[i - |extra|];
      }
    }
    forall i | 0 <= i < |all| && !all[i].byCaller ensures all[i].future.Done() {
      assert all[i] == wakes[i - |extra|];
    }
  }
}
