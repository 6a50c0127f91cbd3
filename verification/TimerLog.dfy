/**
 What a timer queue promises, as a log of what happened to its timers. Timers are named by their ids, which
 count up from one. Replaying the log gives the timers still armed; a log is legal when every firing was of
 an armed timer that was due and had the least expiry.
 */
module TimerLog {
  import opened Options

  datatype Entry = Entry(expiry: int, interval: int, handler: nat)

  datatype Event =
    | Inserted(entry: Entry)
    | Cancelled(id: nat)
      /** The timer's callback begins. */
    | Fired(id: nat, now: int)
      /** The callback is over: a periodic timer still armed is rescheduled, a one-shot timer is done. */
    | Settled(id: nat, now: int)

  /** `armed[id - 1]` is the entry of timer `id` while it is pending; `firing` is the timer whose callback runs. */
  datatype Timers = Timers(armed: seq<Option<Entry>>, firing: Option<nat>)

  predicate IsArmed(t: Timers, id: nat) {
    1 <= id <= |t.armed| && t.armed[id - 1].Some?
  }

  function Expiry(t: Timers, id: nat): int
    requires IsArmed(t, id)
  {
    t.armed[id - 1].value.expiry
  }

  /** A periodic timer moves on by its interval, but always into the future. */
  function Rescheduled(e: Entry, now: int): Entry {
    e.(expiry := if e.expiry + e.interval > now + 1 then e.expiry + e.interval else now + 1)
  }

  function SettledEntry(e: Entry, now: int): Option<Entry> {
    if e.interval > 0 then Some(Rescheduled(e, now)) else None
  }

  function Disarmed(armed: seq<Option<Entry>>, id: nat): seq<Option<Entry>> {
    if 1 <= id <= |armed| then armed[id - 1 := None] else armed
  }

  /** A time a timer with entry `e` that fired at `now` may be due again: in the future, and an interval on at least. */
  predicate MayBeDue(e: Entry, now: int, at: int) {
    at > now && at >= e.expiry + e.interval
  }

  /** What has to become of the armed entry `e` of a timer that fired at `now`: periodic, it is due as soon as it may be. */
  ghost predicate SettlesTo(e: Entry, now: int, e': Option<Entry>) {
    if e.interval > 0 then
      && e'.Some? && e'.value.interval == e.interval && e'.value.handler == e.handler
      && MayBeDue(e, now, e'.value.expiry) && forall at: int :: MayBeDue(e, now, at) ==> e'.value.expiry <= at
    else e'.None?
  }

  function After(t: Timers, e: Event): Timers {
    match e
    case Inserted(entry) => t.(armed := t.armed + [Some(entry)])
    case Cancelled(id) => t.(armed := Disarmed(t.armed, id))
    case Fired(id, now) => t.(firing := Some(id))
    case Settled(id, now) =>
      Timers(if IsArmed(t, id) then t.armed[id - 1 := SettledEntry(t.armed[id - 1].value, now)] else t.armed, None)
  }

  /** Timer `id` is settled at `now`, and no other timer is touched. */
  ghost predicate Settles(t: Timers, id: nat, now: int, t': Timers) {
    && |t'.armed| == |t.armed| && t'.firing.None?
    && (forall i :: 0 <= i < |t.armed| && i + 1 != id ==> t'.armed[i] == t.armed[i])
    && (1 <= id <= |t.armed| ==>
          if IsArmed(t, id) then SettlesTo(t.armed[id - 1].value, now, t'.armed[id - 1]) else t'.armed[id - 1].None?)
  }

  lemma SettledSettles(t: Timers, id: nat, now: int)
    ensures Settles(t, id, now, After(t, Settled(id, now)))
  {
  }

  /** Each settling behind `before` is as it has to be. */
  ghost predicate AllSettle(before: seq<Event>, log: seq<Event>) {
    forall k :: |before| <= k < |log| && log[k].Settled? ==> Settles(Replay(log[..k]), log[k].id, log[k].now, Replay(log[..k + 1]))
  }

  /** In a legal log every timer whose callback is over is settled as it has to be. */
  lemma LegalSettles(before: seq<Event>, log: seq<Event>)
    requires Legal(log)
    ensures AllSettle(before, log)
  {
    hide Legal, Replay, Settles;
    forall k | |before| <= k < |log| && log[k].Settled?
      ensures Settles(Replay(log[..k]), log[k].id, log[k].now, Replay(log[..k + 1]))
    {
      LegalAt(log, k);
      SettledSettles(Replay(log[..k]), log[k].id, log[k].now);
    }
  }

  ghost predicate Earliest(t: Timers, id: nat)
    requires IsArmed(t, id)
  {
    forall other :: IsArmed(t, other) ==> Expiry(t, id) <= Expiry(t, other)
  }

  ghost predicate CanHappen(t: Timers, e: Event) {
    match e
    case Inserted(_) => true
    case Cancelled(id) => IsArmed(t, id)
    case Fired(id, now) => t.firing.None? && IsArmed(t, id) && Expiry(t, id) <= now && Earliest(t, id)
    case Settled(id, now) => t.firing == Some(id)
  }

  ghost function Replay(log: seq<Event>): Timers {
    if log == [] then Timers([], None) else After(Replay(log[..|log| - 1]), log[|log| - 1])
  }

  ghost predicate Legal(log: seq<Event>) {
    log == [] || (Legal(log[..|log| - 1]) && CanHappen(Replay(log[..|log| - 1]), log[|log| - 1]))
  }

  /** How often a timer was cancelled while its own callback was running. */
  ghost function SelfCancels(log: seq<Event>): nat {
    if log == [] then 0
    else SelfCancels(log[..|log| - 1]) + if IsSelfCancel(Replay(log[..|log| - 1]), log[|log| - 1]) then 1 else 0
  }

  predicate IsSelfCancel(t: Timers, e: Event) {
    e.Cancelled? && t.firing == Some(e.id)
  }

  lemma SelfCancelsNext(log: seq<Event>, e: Event)
    ensures SelfCancels(log + [e]) == SelfCancels(log) + if IsSelfCancel(Replay(log), e) then 1 else 0
  {
    assert (log + [e])[..|log|] == log;
  }

  lemma ReplayNext(log: seq<Event>, e: Event)
    ensures Replay(log + [e]) == After(Replay(log), e)
    ensures Legal(log + [e]) <==> Legal(log) && CanHappen(Replay(log), e)
  {
    assert (log + [e])[..|log|] == log;
  }

  /** The event at `i` of a legal log could happen, and leads from one prefix to the next. */
  lemma {:induction false} LegalAt(log: seq<Event>, i: nat)
    requires Legal(log) && i < |log|
    ensures CanHappen(Replay(log[..i]), log[i])
    ensures Replay(log[..i + 1]) == After(Replay(log[..i]), log[i])
    decreases |log|
  {
    var last := |log| - 1;
    if i == last {
      assert log[..i + 1] == log;
    } else {
      LegalAt(log[..last], i);
      assert log[..last][..i] == log[..i] && log[..last][..i + 1] == log[..i + 1];
    }
  }

  /** The timer whose callback runs has an id that was given out. */
  lemma {:induction false} FiringKnown(log: seq<Event>)
    requires Legal(log)
    ensures Replay(log).firing.Some? ==> 1 <= Replay(log).firing.value <= |Replay(log).armed|
    decreases |log|
  {
    if log != [] {
      FiringKnown(log[..|log| - 1]);
    }
  }

  /** Since `since`, some timer was cancelled by its own callback, by name or by its last handle. */
  ghost predicate SelfCancelledSince(since: seq<Event>, log: seq<Event>) {
    exists k :: |since| <= k < |log| && IsSelfCancel(Replay(log[..k]), log[k])
  }

  lemma {:induction false} SelfCancelsSince(since: seq<Event>, log: seq<Event>)
    requires since <= log
    ensures SelfCancels(log) >= SelfCancels(since)
    ensures SelfCancels(log) == SelfCancels(since) <==> !SelfCancelledSince(since, log)
    decreases |log|
  {
    hide Replay, IsSelfCancel;
    if since != log {
      var init := log[..|log| - 1];
      SelfCancelsSince(since, init);
      assert forall k :: 0 <= k < |init| ==> init[..k] == log[..k] && init[k] == log[k];
    }
  }

  // ---------------------------------------------------------------- what cannot fire

  /** Ids are never reused: a timer once disarmed stays so. */
  lemma {:induction false} NoRevival(log: seq<Event>, i: nat, j: nat, id: nat)
    requires Legal(log) && i <= j <= |log|
    requires 1 <= id <= |Replay(log[..i]).armed| && !IsArmed(Replay(log[..i]), id)
    ensures 1 <= id <= |Replay(log[..j]).armed| && !IsArmed(Replay(log[..j]), id)
    decreases j
  {
    hide Replay, Legal;
    if i < j {
      NoRevival(log, i, j - 1, id);
      LegalAt(log, j - 1);
    }
  }

  /** A cancelled timer never fires again. */
  lemma CancelledNeverFires(log: seq<Event>, i: nat, j: nat, id: nat)
    requires Legal(log) && i < j < |log| && log[i] == Cancelled(id)
    ensures !(log[j].Fired? && log[j].id == id)
  {
    LegalAt(log, i);
    NoRevival(log, i + 1, j, id);
    LegalAt(log, j);
  }

  /** From the firing of a one-shot timer on, either its callback is still running or it is disarmed. */
  lemma {:induction false} OneShotSpent(log: seq<Event>, i: nat, j: nat, id: nat)
    requires Legal(log) && i < j <= |log| && log[i].Fired? && log[i].id == id
    requires IsArmed(Replay(log[..i]), id) && Replay(log[..i]).armed[id - 1].value.interval <= 0
    ensures var t := Replay(log[..j]);
            1 <= id <= |t.armed| && (IsArmed(t, id) ==> t.armed[id - 1].value.interval <= 0)
    ensures Replay(log[..j]).firing == Some(id) || !IsArmed(Replay(log[..j]), id)
    decreases j
  {
    hide Replay, Legal;
    LegalAt(log, j - 1);
    if i + 1 < j {
      OneShotSpent(log, i, j - 1, id);
    }
  }

  /** A one-shot timer fires at most once, ever. */
  lemma OneShotFiresOnce(log: seq<Event>, i: nat, j: nat, id: nat)
    requires Legal(log) && i < j < |log| && log[i].Fired? && log[i].id == id
    requires IsArmed(Replay(log[..i]), id) && Replay(log[..i]).armed[id - 1].value.interval <= 0
    ensures !(log[j].Fired? && log[j].id == id)
  {
    OneShotSpent(log, i, j, id);
    LegalAt(log, j);
  }

  // ---------------------------------------------------------------- one dispatch

  /** What callbacks and the dispatch loop may log at time `now` when no timer already due is inserted. */
  predicate During(e: Event, now: int) {
    match e
    case Inserted(entry) => entry.expiry > now
    case Cancelled(_) => true
    case Fired(_, at) => at == now
    case Settled(_, at) => at == now
  }

  ghost predicate AllDuring(log: seq<Event>, i: nat, now: int) {
    forall k :: i <= k < |log| ==> During(log[k], now)
  }

  /** After a firing, whatever is due has no earlier expiry. */
  lemma {:induction false} DueStaysLater(log: seq<Event>, i: nat, j: nat, id: nat, now: int)
    requires Legal(log) && i < j <= |log| && log[i] == Fired(id, now) && AllDuring(log, i, now)
    ensures IsArmed(Replay(log[..i]), id)
    ensures NoneBefore(Replay(log[..j]), now, Expiry(Replay(log[..i]), id))
    decreases j
  {
    hide After, CanHappen, Replay, NoneBefore;
    LegalAt(log, i);
    FiringArmed(Replay(log[..i]), id, now);
    var bound := Expiry(Replay(log[..i]), id);
    if i + 1 == j {
      FiringIsEarliest(Replay(log[..i]), id, now);
    } else {
      DueStaysLater(log, i, j - 1, id, now);
      LegalAt(log, j - 1);
      assert During(log[j - 1], now);
      LaterStep(Replay(log[..j - 1]), log[j - 1], now, bound);
    }
  }

  /** Everything armed expires no earlier than `bound`, or in the future. */
  ghost predicate NoneBefore(t: Timers, now: int, bound: int) {
    forall other :: IsArmed(t, other) ==> Expiry(t, other) >= bound || Expiry(t, other) > now
  }

  lemma FiringIsEarliest(t: Timers, id: nat, now: int)
    requires CanHappen(t, Fired(id, now))
    ensures IsArmed(t, id) && NoneBefore(After(t, Fired(id, now)), now, Expiry(t, id))
  {
    forall other | IsArmed(After(t, Fired(id, now)), other) ensures Expiry(t, other) >= Expiry(t, id) {
      assert IsArmed(t, other);
    }
  }

  lemma FiringArmed(t: Timers, id: nat, now: int)
    requires CanHappen(t, Fired(id, now))
    ensures IsArmed(t, id)
  {
  }

  lemma LaterStep(t: Timers, e: Event, now: int, bound: int)
    requires NoneBefore(t, now, bound) && CanHappen(t, e) && During(e, now)
    ensures NoneBefore(After(t, e), now, bound)
  {
    forall other | IsArmed(After(t, e), other)
      ensures Expiry(After(t, e), other) >= bound || Expiry(After(t, e), other) > now
    {
      assert IsArmed(t, other) || e.Inserted?;
    }
  }

  /** Within one dispatch, timers fire in order of expiry. */
  lemma FiredInOrder(log: seq<Event>, i: nat, j: nat, now: int)
    requires Legal(log) && i < j < |log| && log[i].Fired? && log[j].Fired? && log[i].now == now
    requires AllDuring(log, i, now)
    ensures IsArmed(Replay(log[..i]), log[i].id) && IsArmed(Replay(log[..j]), log[j].id)
    ensures Expiry(Replay(log[..i]), log[i].id) <= Expiry(Replay(log[..j]), log[j].id)
  {
    assert During(log[j], now);
    DueStaysLater(log, i, j, log[i].id, now);
    LegalAt(log, j);
  }

  /** The timers due at `now`. */
  function Due(t: Timers, now: int): set<nat> {
    set id | 1 <= id <= |t.armed| && IsArmed(t, id) && Expiry(t, id) <= now
  }

  /** What a dispatch logs when no callback touches the queue. */
  function Rounds(ids: seq<nat>, now: int): seq<Event> {
    if ids == [] then [] else Rounds(ids[..|ids| - 1], now) + [Fired(ids[|ids| - 1], now), Settled(ids[|ids| - 1], now)]
  }

  lemma RoundsLast(ids: seq<nat>, id: nat, now: int)
    ensures Rounds(ids + [id], now) == Rounds(ids, now) + [Fired(id, now), Settled(id, now)]
  {
    assert (ids + [id])[..|ids|] == ids;
  }

  /** Everything due at `now` settled, everything else untouched. */
  ghost predicate SettledDue(t: Timers, fired: set<nat>, now: int, t': Timers) {
    && |t'.armed| == |t.armed| && t'.firing.None?
    && forall i :: 0 <= i < |t.armed| ==>
         if i + 1 in fired && t.armed[i].Some? then SettlesTo(t.armed[i].value, now, t'.armed[i]) else t'.armed[i] == t.armed[i]
  }

  ghost predicate NoRepeats(ids: seq<nat>) {
    forall i, j :: 0 <= i < j < |ids| ==> ids[i] != ids[j]
  }

  function Elements(ids: seq<nat>): set<nat> {
    set i | 0 <= i < |ids| :: ids[i]
  }

  /** One firing and settling, seen from the state before the dispatch. */
  lemma QuietRound(t: Timers, fired: set<nat>, before: Timers, id: nat, now: int)
    requires SettledDue(t, fired, now, before) && fired <= Due(t, now) && CanHappen(before, Fired(id, now))
    ensures id !in fired && id in Due(t, now)
    ensures SettledDue(t, fired + {id}, now, After(After(before, Fired(id, now)), Settled(id, now)))
  {
    assert before.armed[id - 1].Some?;
  }

  lemma {:induction false} QuietRounds(log: seq<Event>, ids: seq<nat>, now: int)
    requires Legal(log + Rounds(ids, now)) && Replay(log).firing.None?
    ensures Legal(log)
    ensures NoRepeats(ids) && Elements(ids) <= Due(Replay(log), now)
    ensures SettledDue(Replay(log), Elements(ids), now, Replay(log + Rounds(ids, now)))
    decreases |ids|
  {
    hide CanHappen, After, SettledDue;
    if ids == [] {
      assert log + Rounds(ids, now) == log;
      NothingSettled(Replay(log), now);
    } else {
      var init, id := ids[..|ids| - 1], ids[|ids| - 1];
      var before := log + Rounds(init, now);
      assert log + Rounds(ids, now) == before + [Fired(id, now)] + [Settled(id, now)];
      ReplayNext(before + [Fired(id, now)], Settled(id, now));
      ReplayNext(before, Fired(id, now));
      QuietRounds(log, init, now);
      QuietRound(Replay(log), Elements(init), Replay(before), id, now);
      assert ids == init + [id];
      ElementsLast(init, id);
      NoRepeatsLast(init, id);
    }
  }

  lemma NothingSettled(t: Timers, now: int)
    requires t.firing.None?
    ensures SettledDue(t, Elements([]), now, t)
  {
  }

  lemma NoRepeatsLast(ids: seq<nat>, id: nat)
    requires NoRepeats(ids) && id !in Elements(ids)
    ensures NoRepeats(ids + [id])
  {
    forall i, j | 0 <= i < j < |ids + [id]| ensures (ids + [id])[i] != (ids + [id])[j] {
      assert ids[i] in Elements(ids);
    }
  }

  lemma ElementsLast(ids: seq<nat>, id: nat)
    ensures Elements(ids + [id]) == Elements(ids) + {id}
  {
    forall x | x in Elements(ids) + {id} ensures x in Elements(ids + [id]) {
      if x == id {
        assert (ids + [id])[|ids|] == x;
      } else {
        var i :| 0 <= i < |ids| && ids[i] == x;
        assert (ids + [id])[i] == x;
      }
    }
  }

  lemma {:induction false} ElementsCount(ids: seq<nat>)
    requires NoRepeats(ids)
    ensures |Elements(ids)| == |ids|
  {
    if ids != [] {
      var init, id := ids[..|ids| - 1], ids[|ids| - 1];
      ElementsCount(init);
      ElementsLast(init, id);
      assert ids == init + [id] && id !in Elements(init);
    } else {
      assert Elements(ids) == {};
    }
  }

  lemma UnfiredStaysDue(t: Timers, fired: set<nat>, now: int, t': Timers, id: nat)
    requires SettledDue(t, fired, now, t') && id in Due(t, now) && id !in fired
    ensures id in Due(t', now)
  {
    assert t'.armed[id - 1] == t.armed[id - 1];
  }

  /**
   A dispatch whose callbacks leave the queue alone, and after which nothing is due, fires exactly the timers
   that were due, each once, and settles exactly those.
   */
  lemma FiresExactlyDue(log: seq<Event>, ids: seq<nat>, now: int)
    requires Legal(log + Rounds(ids, now)) && Replay(log).firing.None?
    requires Due(Replay(log + Rounds(ids, now)), now) == {}
    ensures NoRepeats(ids) && Elements(ids) == Due(Replay(log), now) && |ids| == |Due(Replay(log), now)|
    ensures SettledDue(Replay(log), Due(Replay(log), now), now, Replay(log + Rounds(ids, now)))
  {
    QuietRounds(log, ids, now);
    var t, t' := Replay(log), Replay(log + Rounds(ids, now));
    forall id | id in Due(t, now) ensures id in Elements(ids) {
      if id !in Elements(ids) {
        UnfiredStaysDue(t, Elements(ids), now, t', id);
      }
    }
    assert Elements(ids) == Due(t, now);
    ElementsCount(ids);
  }

  // ---------------------------------------------------------------- callbacks

  /** What a callback may log: no timer already due is inserted. */
  predicate FromCallback(e: Event, now: int) {
    e.Cancelled? || (e.Inserted? && e.entry.expiry > now)
  }

  /** `log` continues `before` with what a callback may log. */
  ghost predicate Continues(before: seq<Event>, log: seq<Event>, now: int) {
    before <= log && forall k :: |before| <= k < |log| ==> FromCallback(log[k], now)
  }

  lemma ContinuesThen(a: seq<Event>, b: seq<Event>, c: seq<Event>, now: int)
    requires Continues(a, b, now) && Continues(b, c, now)
    ensures Continues(a, c, now)
  {
  }

  lemma {:induction false} CallbackKeepsFiring(before: seq<Event>, log: seq<Event>, now: int)
    requires Legal(log) && Continues(before, log, now)
    ensures Legal(before) && Replay(log).firing == Replay(before).firing
    ensures |Replay(log).armed| >= |Replay(before).armed|
    ensures Due(Replay(log), now) <= Due(Replay(before), now)
    decreases |log|
  {
    if before == log {
    } else {
      var init, e := log[..|log| - 1], log[|log| - 1];
      assert FromCallback(e, now);
      assert Continues(before, init, now);
      CallbackKeepsFiring(before, init, now);
      assert Replay(log) == After(Replay(init), e);
      DueStep(Replay(init), e, now);
    }
  }

  lemma DueStep(t: Timers, e: Event, now: int)
    requires During(e, now)
    ensures Due(After(t, e), now) <= Due(t, now)
    ensures e.Settled? ==> e.id !in Due(After(t, e), now)
  {
  }

  /** A whole firing leaves fewer timers due. */
  lemma FiringProgress(before: seq<Event>, mid: seq<Event>, id: nat, now: int)
    requires Legal(mid + [Settled(id, now)]) && Continues(before + [Fired(id, now)], mid, now)
    ensures Due(Replay(mid + [Settled(id, now)]), now) < Due(Replay(before), now)
  {
    var start, end := before + [Fired(id, now)], mid + [Settled(id, now)];
    ReplayNext(mid, Settled(id, now));
    CallbackKeepsFiring(start, mid, now);
    ReplayNext(before, Fired(id, now));
    DueStep(Replay(before), Fired(id, now), now);
    DueStep(Replay(mid), Settled(id, now), now);
    assert id in Due(Replay(before), now);
  }

  /** What one dispatch logs: firings, each with whatever its callback did, and its settling. */
  ghost predicate DispatchLog(before: seq<Event>, log: seq<Event>, now: int, work: nat)
    decreases work
  {
    if work == 0 then log == before
    else exists last: seq<Event>, mid: seq<Event>, id: nat ::
      DispatchLog(before, last, now, work - 1) && OneFiring(last, mid, log, id, now)
  }

  ghost predicate OneFiring(last: seq<Event>, mid: seq<Event>, log: seq<Event>, id: nat, now: int) {
    Continues(last + [Fired(id, now)], mid, now) && log == mid + [Settled(id, now)]
  }

  /** Everything a dispatch logs is allowed during it, and it fires `work` times. */
  lemma {:induction false} DispatchLogDuring(before: seq<Event>, log: seq<Event>, now: int, work: nat)
    requires DispatchLog(before, log, now, work)
    ensures before <= log && AllDuring(log, |before|, now)
    ensures Firings(log) == Firings(before) + work
    decreases work
  {
    if work > 0 {
      var last: seq<Event>, mid: seq<Event>, id: nat :|
        DispatchLog(before, last, now, work - 1) && OneFiring(last, mid, log, id, now);
      DispatchLogDuring(before, last, now, work - 1);
      assert Firings(last + [Fired(id, now)]) == Firings(last) + 1 by {
        assert (last + [Fired(id, now)])[..|last|] == last;
      }
      NoFirings(last + [Fired(id, now)], mid, now);
      assert Firings(log) == Firings(mid) by {
        assert log[..|log| - 1] == mid;
      }
      forall k | |before| <= k < |log| ensures During(log[k], now) {
        if k < |last| {
          assert log[k] == last[k];
        } else if k > |last| && k < |mid| {
          assert log[k] == mid[k] && FromCallback(mid[k], now);
        }
      }
    }
  }

  ghost function Firings(log: seq<Event>): nat {
    if log == [] then 0 else Firings(log[..|log| - 1]) + if log[|log| - 1].Fired? then 1 else 0
  }

  lemma {:induction false} NoFirings(before: seq<Event>, log: seq<Event>, now: int)
    requires Continues(before, log, now)
    ensures Firings(log) == Firings(before)
    decreases |log|
  {
    if before != log {
      assert FromCallback(log[|log| - 1], now);
      assert Continues(before, log[..|log| - 1], now);
      NoFirings(before, log[..|log| - 1], now);
    }
  }

  /** The timers a dispatch fires are in order of expiry, whatever the callbacks do to the queue meanwhile. */
  lemma DispatchFiresInOrder(before: seq<Event>, log: seq<Event>, now: int, work: nat, i: nat, j: nat)
    requires Legal(log) && DispatchLog(before, log, now, work)
    requires |before| <= i < j < |log| && log[i].Fired? && log[j].Fired?
    ensures IsArmed(Replay(log[..i]), log[i].id) && IsArmed(Replay(log[..j]), log[j].id)
    ensures Expiry(Replay(log[..i]), log[i].id) <= Expiry(Replay(log[..j]), log[j].id) <= now
  {
    DispatchLogDuring(before, log, now, work);
    assert During(log[i], now) && During(log[j], now);
    FiredInOrder(log, i, j, now);
    LegalAt(log, j);
  }
}
