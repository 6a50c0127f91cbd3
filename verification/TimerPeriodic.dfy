/**
 When periodic timers fire, whatever callbacks and users do meanwhile, as long as nobody cancels them: once in each
 dispatch at or after their expiry, and at their own rate if there is a dispatch in each interval.
 */
module TimerPeriodic {
  import opened Options
  import opened TimerLog
  import opened TimerUse

  ghost function FiringsOf(log: seq<Event>, id: nat): nat {
    if log == [] then 0
    else FiringsOf(log[..|log| - 1], id) + if log[|log| - 1].Fired? && log[|log| - 1].id == id then 1 else 0
  }

  /** Nobody cancels timer `id` behind `before`. */
  ghost predicate LeftAlone(before: seq<Event>, log: seq<Event>, id: nat) {
    forall k :: |before| <= k < |log| ==> log[k] != Cancelled(id)
  }

  ghost predicate ArmedAs(t: Timers, id: nat, e: Entry) {
    IsArmed(t, id) && t.armed[id - 1].value == e
  }

  /** One dispatch, seen from the log. */
  ghost predicate DispatchedAt(before: seq<Event>, log: seq<Event>, now: int) {
    && Legal(log) && before <= log && AllDuring(log, |before|, now)
    && Replay(before).firing.None? && Replay(log).firing.None? && Due(Replay(log), now) == {}
  }

  /** Somewhere in a dispatch: the timer has not fired, or its callback runs, or it has been settled. */
  ghost predicate Stage(before: seq<Event>, log: seq<Event>, id: nat, e: Entry, now: int) {
    var t := Replay(log);
    || (ArmedAs(t, id, e) && t.firing != Some(id) && FiringsOf(log, id) == FiringsOf(before, id))
    || (ArmedAs(t, id, e) && t.firing == Some(id) && e.expiry <= now && FiringsOf(log, id) == FiringsOf(before, id) + 1)
    || (IsArmed(t, id) && t.firing != Some(id) && e.expiry <= now && SettlesTo(e, now, t.armed[id - 1])
        && FiringsOf(log, id) == FiringsOf(before, id) + 1)
  }

  lemma StageNext(before: seq<Event>, log: seq<Event>, ev: Event, id: nat, e: Entry, now: int)
    requires Stage(before, log, id, e, now) && CanHappen(Replay(log), ev) && During(ev, now) && ev != Cancelled(id)
    requires e.interval > 0 && (Replay(log).firing.Some? ==> 1 <= Replay(log).firing.value <= |Replay(log).armed|)
    ensures Stage(before, log + [ev], id, e, now)
  {
    hide Replay, Earliest;
    ReplayNext(log, ev);
    assert (log + [ev])[..|log|] == log;
    SettledSettles(Replay(log), id, now);
  }

  lemma {:induction false} Staged(before: seq<Event>, log: seq<Event>, id: nat, e: Entry, now: int)
    requires Legal(log) && before <= log && AllDuring(log, |before|, now) && LeftAlone(before, log, id)
    requires ArmedAs(Replay(before), id, e) && e.interval > 0 && Replay(before).firing.None?
    ensures Stage(before, log, id, e, now)
    decreases |log|
  {
    hide Replay, Stage, CanHappen, During;
    if before == log {
      StageBegins(log, id, e, now);
    } else {
      var last := |log| - 1;
      assert log == log[..last] + [log[last]];
      Staged(before, log[..last], id, e, now);
      LegalAt(log, last);
      FiringKnown(log[..last]);
      StageNext(before, log[..last], log[last], id, e, now);
    }
  }

  lemma StageBegins(log: seq<Event>, id: nat, e: Entry, now: int)
    requires ArmedAs(Replay(log), id, e) && Replay(log).firing.None?
    ensures Stage(log, log, id, e, now)
  {
  }

  /**
   A periodic timer nobody cancels fires in a dispatch once if it is due at its start, and else not at all. If it does,
   it is due again as soon as it may be; if not, it stays as it is.
   */
  lemma FiresOnceIfDue(before: seq<Event>, log: seq<Event>, id: nat, e: Entry, now: int)
    requires DispatchedAt(before, log, now) && LeftAlone(before, log, id)
    requires ArmedAs(Replay(before), id, e) && e.interval > 0
    ensures IsArmed(Replay(log), id)
    ensures FiringsOf(log, id) == FiringsOf(before, id) + if e.expiry <= now then 1 else 0
    ensures if e.expiry <= now then SettlesTo(e, now, Replay(log).armed[id - 1]) else ArmedAs(Replay(log), id, e)
  {
    hide Replay, Legal;
    Staged(before, log, id, e, now);
    assert ArmedAs(Replay(log), id, e) && e.expiry <= now ==> id in Due(Replay(log), now);
  }

  /** What is not a dispatch does not touch the timer. */
  lemma {:induction false} Untouched(before: seq<Event>, log: seq<Event>, id: nat, e: Entry, now: int)
    requires Legal(log) && Continues(before, log, now) && LeftAlone(before, log, id) && ArmedAs(Replay(before), id, e)
    ensures ArmedAs(Replay(log), id, e) && FiringsOf(log, id) == FiringsOf(before, id)
    ensures Replay(log).firing == Replay(before).firing
    decreases |log|
  {
    if before != log {
      var last := |log| - 1;
      assert FromCallback(log[last], now) && Continues(before, log[..last], now);
      Untouched(before, log[..last], id, e, now);
    }
  }

  // ---------------------------------------------------------------- call after call

  /** How many of the calls dispatch. */
  function Dispatches(calls: seq<Call>): nat {
    if calls == [] then 0 else Dispatches(calls[..|calls| - 1]) + if calls[|calls| - 1].Dispatch? then 1 else 0
  }

  /** When a timer that started as `e` is due for the nth time, if it keeps its rate. */
  function DueTime(e: Entry, n: nat): int {
    e.expiry + n * e.interval
  }

  /** The nth dispatch is within the nth interval from the timer's first expiry on, maybe right at its start. */
  ghost predicate Punctual(calls: seq<Call>, e: Entry) {
    forall k :: 0 <= k < |calls| && calls[k].Dispatch? ==>
      DueTime(e, Dispatches(calls[..k])) <= calls[k].now < DueTime(e, Dispatches(calls[..k]) + 1)
  }

  /** All a dispatch logs is logged during it, and no callback is left running. */
  lemma DispatchSeen(react: nat -> seq<Op>, v: View, v': View, now: int, work: nat)
    requires Dispatched(react, v, v', now, work) && (forall n: nat :: AllInFuture(react(n), now)) && Legal(v'.log)
    requires Replay(v.log).firing.None? && Due(Replay(v'.log), now) == {}
    ensures DispatchedAt(v.log, v'.log, now)
  {
    hide Replay, Legal, Due, Dispatched, AllInFuture;
    DispatchedGrows(react, v, v', now, work);
    DispatchLogDuring(v.log, v'.log, now, work);
    if work > 0 {
      var last: seq<Event>, mid: seq<Event>, id: nat :|
        DispatchLog(v.log, last, now, work - 1) && OneFiring(last, mid, v'.log, id, now);
      ReplayNext(mid, Settled(id, now));
    }
  }

  /** One call: a dispatch at or after the timer's expiry fires it once; nothing else does. */
  lemma CallFires(call: Call, v: View, v': View, id: nat, e: Entry)
    requires CallStep(call, v, v') && Fair(call) && Legal(v'.log) && Replay(v.log).firing.None?
    requires LeftAlone(v.log, v'.log, id) && ArmedAs(Replay(v.log), id, e) && e.interval > 0
    ensures v.log <= v'.log && Replay(v'.log).firing.None? && IsArmed(Replay(v'.log), id)
    ensures FiringsOf(v'.log, id) == FiringsOf(v.log, id) + if call.Dispatch? && e.expiry <= call.now then 1 else 0
    ensures if call.Dispatch? && e.expiry <= call.now then SettlesTo(e, call.now, Replay(v'.log).armed[id - 1])
            else ArmedAs(Replay(v'.log), id, e)
  {
    hide Replay, Legal, OpStep, Dispatched, Due, FiringsOf, AllInFuture, SettlesTo, AllDuring;
    match call
    case Use(op) =>
      var now := if op.Insert? then op.expiry - 1 else 0;
      OpContinues(op, None, v, v', now);
      Untouched(v.log, v'.log, id, e, now);
    case Dispatch(now, react) =>
      var work: nat :| Dispatched(react, v, v', now, work);
      DispatchSeen(react, v, v', now, work);
      FiresOnceIfDue(v.log, v'.log, id, e, now);
  }

  /** Served on time, it is due next one interval on. */
  lemma OnTime(e: Entry, n: nat, now: int, e': Option<Entry>)
    requires e.interval > 0 && DueTime(e, n) <= now < DueTime(e, n + 1)
    requires SettlesTo(e.(expiry := DueTime(e, n)), now, e')
    ensures e' == Some(e.(expiry := DueTime(e, n + 1)))
  {
    assert (n + 1) * e.interval == n * e.interval + e.interval;
    assert MayBeDue(e.(expiry := DueTime(e, n)), now, DueTime(e, n + 1));
  }

  /**
   Whatever else users and callbacks do: a periodic timer nobody cancels, with one dispatch in each of its intervals,
   fires once in each of these dispatches, and its expiry does not drift. That is so in particular for dispatches at
   its expiry `e`, at `e + i`, `e + 2i` and so on.
   */
  lemma {:induction false} KeepsItsRate(calls: seq<Call>, v: View, v': View, id: nat, e: Entry)
    requires Served(calls, v, v') && Legal(v'.log) && Replay(v.log).firing.None?
    requires forall k :: 0 <= k < |calls| ==> Fair(calls[k])
    requires LeftAlone(v.log, v'.log, id) && ArmedAs(Replay(v.log), id, e) && e.interval > 0 && Punctual(calls, e)
    ensures v.log <= v'.log && Replay(v'.log).firing.None?
    ensures FiringsOf(v'.log, id) == FiringsOf(v.log, id) + Dispatches(calls)
    ensures ArmedAs(Replay(v'.log), id, e.(expiry := DueTime(e, Dispatches(calls))))
    decreases |calls|
  {
    hide Replay, Legal, CallStep, FiringsOf, Fair, DueTime, SettlesTo;
    if calls == [] {
      assert DueTime(e, 0) == e.expiry by { FirstDue(e); }
    } else {
      var init, last := calls[..|calls| - 1], calls[|calls| - 1];
      var mid: View :| Served(init, v, mid) && ServedLast(calls, mid, v');
      CallGrows(last, mid, v');
      LegalPrefix(mid.log, v'.log);
      PunctualPrefix(calls, e);
      KeepsItsRate(init, v, mid, id, e);
      var now := e.(expiry := DueTime(e, Dispatches(init)));
      CallFires(last, mid, v', id, now);
      if last.Dispatch? {
        OnTime(e, Dispatches(init), last.now, Replay(v'.log).armed[id - 1]);
      }
    }
  }

  lemma FirstDue(e: Entry)
    ensures DueTime(e, 0) == e.expiry
  {
  }

  lemma PunctualPrefix(calls: seq<Call>, e: Entry)
    requires calls != [] && Punctual(calls, e)
    ensures Punctual(calls[..|calls| - 1], e)
  {
    hide DueTime, Dispatches;
    var init := calls[..|calls| - 1];
    assert forall k :: 0 <= k < |init| ==> init[k] == calls[k] && init[..k] == calls[..k];
  }

  lemma CallGrows(call: Call, v: View, v': View)
    requires CallStep(call, v, v') && Fair(call)
    ensures v.log <= v'.log
  {
    hide Replay, OpStep, Dispatched, Due, AllInFuture;
    match call
    case Use(op) => OpContinues(op, None, v, v', if op.Insert? then op.expiry - 1 else 0);
    case Dispatch(now, react) =>
      var work: nat :| Dispatched(react, v, v', now, work);
      DispatchedGrows(react, v, v', now, work);
      DispatchLogDuring(v.log, v'.log, now, work);
  }

  lemma {:induction false} LegalPrefix(before: seq<Event>, log: seq<Event>)
    requires Legal(log) && before <= log
    ensures Legal(before)
    decreases |log|
  {
    if before != log {
      LegalPrefix(before, log[..|log| - 1]);
    }
  }
}
