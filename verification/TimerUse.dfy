/**
 What users of a timer queue see and do: the log, the cell each timer was given, and how many handles users
 have to each cell. Operations, callbacks and whole dispatches are relations between two such views.
 */
module TimerUse {
  import opened Options
  import opened TimerLog

  /** What a callback, or any other user, may ask of the queue. */
  datatype Op =
    | Insert(expiry: int, interval: int, handler: nat)
    | Cancel(timer: nat)
    | Copy(timer: nat)
    | Drop(timer: nat)
      /** Through the handle passed to the callback. */
    | CancelSelf
    | CopySelf

  /** No timer already due is inserted. */
  predicate InFuture(op: Op, now: int) {
    op.Insert? ==> op.expiry > now
  }

  ghost predicate AllInFuture(ops: seq<Op>, now: int) {
    forall k :: 0 <= k < |ops| ==> InFuture(ops[k], now)
  }

  /** `cellOf[id - 1]` is the cell that timer `id` was given. */
  datatype View = View(log: seq<Event>, cellOf: seq<nat>, users: seq<nat>)

  predicate HasHandle(v: View, t: nat) {
    t < |v.users| && v.users[t] > 0
  }

  /** Cell `t` holds the pending timer `id`. */
  ghost predicate Occupies(v: View, t: nat, id: nat) {
    IsArmed(Replay(v.log), id) && id <= |v.cellOf| && v.cellOf[id - 1] == t
  }

  ghost predicate Idle(v: View, t: nat) {
    forall id: nat :: !Occupies(v, t, id)
  }

  /** The pending timer in cell `t`, if any, is cancelled; nothing else is logged. */
  ghost predicate Cancels(v: View, t: nat, log: seq<Event>) {
    || (log == v.log && Idle(v, t))
    || exists id: nat :: Occupies(v, t, id) && log == v.log + [Cancelled(id)]
  }

  /** A new timer is in cell `t`, where there was none and nobody had a handle; its user has one now. */
  ghost predicate Given(v: View, t: nat, v': View) {
    && v'.cellOf == v.cellOf + [t] && Idle(v, t)
    && t < |v'.users| && |v.users| <= |v'.users| && v'.users[t] == 1 && (t < |v.users| ==> v.users[t] == 0)
    && (forall u :: 0 <= u < |v.users| && u != t ==> v'.users[u] == v.users[u])
    && (forall u :: |v.users| <= u < |v'.users| && u != t ==> v'.users[u] == 0)
  }

  /**
   What one operation does, by the callback of the timer in cell `cur` or, if that is none, between calls. A
   handle its user does not have cannot be used; dropping the last handle to a pending timer cancels it.
   */
  ghost predicate OpStep(op: Op, cur: Option<nat>, v: View, v': View) {
    match op
    case Insert(expiry, interval, handler) =>
      v'.log == v.log + [Inserted(Entry(expiry, interval, handler))] && exists t: nat :: Given(v, t, v')
    case Cancel(t) => if HasHandle(v, t) then CancelStep(t, v, v') else v' == v
    case Copy(t) => v' == if HasHandle(v, t) then v.(users := v.users[t := v.users[t] + 1]) else v
    case Drop(t) =>
      if !HasHandle(v, t) then v' == v
      else
        && v'.cellOf == v.cellOf && v'.users == v.users[t := v.users[t] - 1]
        && if v.users[t] == 1 then Cancels(v, t, v'.log) else v'.log == v.log
    case CancelSelf => if cur.Some? then CancelStep(cur.value, v, v') else v' == v
    case CopySelf =>
      v' == if cur.Some? && cur.value < |v.users| then v.(users := v.users[cur.value := v.users[cur.value] + 1]) else v
  }

  ghost predicate CancelStep(t: nat, v: View, v': View) {
    v'.cellOf == v.cellOf && v'.users == v.users && Cancels(v, t, v'.log)
  }

  /** All of a callback's operations, one after the other. */
  ghost predicate Ran(ops: seq<Op>, cur: Option<nat>, v: View, v': View)
    decreases |ops|
  {
    if ops == [] then v' == v
    else exists mid: View :: Ran(ops[..|ops| - 1], cur, v, mid) && RanLast(ops, cur, mid, v')
  }

  ghost predicate RanLast(ops: seq<Op>, cur: Option<nat>, mid: View, v': View)
    requires ops != []
  {
    OpStep(ops[|ops| - 1], cur, mid, v')
  }

  lemma RanNext(ops: seq<Op>, i: nat, cur: Option<nat>, v: View, mid: View, v': View)
    requires i < |ops| && Ran(ops[..i], cur, v, mid) && OpStep(ops[i], cur, mid, v')
    ensures Ran(ops[..i + 1], cur, v, v')
  {
    assert ops[..i + 1][..i] == ops[..i];
    assert RanLast(ops[..i + 1], cur, mid, v');
  }

  lemma RanNone(ops: seq<Op>, cur: Option<nat>, v: View, v': View)
    requires Ran(ops, cur, v, v')
    ensures ops == [] ==> v' == v
  {
  }

  function Logged(v: View, e: Event): View {
    v.(log := v.log + [e])
  }

  /** Timer `id` fires: its callback does just its operations, and the timer is settled. */
  ghost predicate Fires(ops: seq<Op>, v: View, v': View, id: nat, now: int) {
    && 1 <= id <= |v.cellOf|
    && exists mid: View :: Ran(ops, Some(v.cellOf[id - 1]), Logged(v, Fired(id, now)), mid) && v' == Logged(mid, Settled(id, now))
  }

  /** A dispatch: `work` firings, of which the nth does `react(n)`, and nothing else. */
  ghost predicate Dispatched(react: nat -> seq<Op>, v: View, v': View, now: int, work: nat)
    decreases work
  {
    if work == 0 then v' == v
    else exists mid: View, id: nat :: Dispatched(react, v, mid, now, work - 1) && FiresLast(react, mid, v', id, now, work)
  }

  ghost predicate FiresLast(react: nat -> seq<Op>, mid: View, v': View, id: nat, now: int, work: nat)
    requires work > 0
  {
    Fires(react(work - 1), mid, v', id, now)
  }

  lemma NothingDispatched(react: nat -> seq<Op>, v: View, now: int)
    ensures Dispatched(react, v, v, now, 0)
  {
  }

  lemma DispatchedNext(react: nat -> seq<Op>, v: View, mid: View, v': View, now: int, work: nat, id: nat)
    requires Dispatched(react, v, mid, now, work) && Fires(react(work), mid, v', id, now)
    ensures Dispatched(react, v, v', now, work + 1)
  {
    assert FiresLast(react, mid, v', id, now, work + 1);
  }

  /** What users of the queue call. */
  datatype Call = Use(op: Op) | Dispatch(now: int, react: nat -> seq<Op>)

  /** No callback inserts a timer already due. */
  ghost predicate Fair(call: Call) {
    call.Dispatch? ==> forall n: nat :: AllInFuture(call.react(n), call.now)
  }

  ghost predicate CallStep(call: Call, v: View, v': View) {
    match call
    case Use(op) => OpStep(op, None, v, v')
    case Dispatch(now, react) => Due(Replay(v'.log), now) == {} && exists work: nat :: Dispatched(react, v, v', now, work)
  }

  ghost predicate Served(calls: seq<Call>, v: View, v': View)
    decreases |calls|
  {
    if calls == [] then v' == v
    else exists mid: View :: Served(calls[..|calls| - 1], v, mid) && ServedLast(calls, mid, v')
  }

  ghost predicate ServedLast(calls: seq<Call>, mid: View, v': View)
    requires calls != []
  {
    CallStep(calls[|calls| - 1], mid, v')
  }

  // ---------------------------------------------------------------- what follows from that

  /** An operation only adds to the log, and only what a callback may. */
  lemma OpContinues(op: Op, cur: Option<nat>, v: View, v': View, now: int)
    requires OpStep(op, cur, v, v') && InFuture(op, now)
    ensures Continues(v.log, v'.log, now) && v.cellOf <= v'.cellOf
  {
    hide Replay;
  }

  lemma {:induction false} RanContinues(ops: seq<Op>, cur: Option<nat>, v: View, v': View, now: int)
    requires Ran(ops, cur, v, v') && AllInFuture(ops, now)
    ensures Continues(v.log, v'.log, now) && v.cellOf <= v'.cellOf
    decreases |ops|
  {
    hide OpStep;
    if ops != [] {
      var init := ops[..|ops| - 1];
      var mid: View :| Ran(init, cur, v, mid) && RanLast(ops, cur, mid, v');
      RanContinues(init, cur, v, mid, now);
      OpContinues(ops[|ops| - 1], cur, mid, v', now);
      ContinuesThen(v.log, mid.log, v'.log, now);
    }
  }

  lemma {:induction false} DispatchedGrows(react: nat -> seq<Op>, v: View, v': View, now: int, work: nat)
    requires Dispatched(react, v, v', now, work) && forall n: nat :: AllInFuture(react(n), now)
    ensures DispatchLog(v.log, v'.log, now, work) && v.cellOf <= v'.cellOf
    decreases work
  {
    hide Ran, Continues;
    if work > 0 {
      var mid: View, id: nat :| Dispatched(react, v, mid, now, work - 1) && FiresLast(react, mid, v', id, now, work);
      DispatchedGrows(react, v, mid, now, work - 1);
      var fired := Logged(mid, Fired(id, now));
      var done: View :| Ran(react(work - 1), Some(mid.cellOf[id - 1]), fired, done) && v' == Logged(done, Settled(id, now));
      RanContinues(react(work - 1), Some(mid.cellOf[id - 1]), fired, done, now);
      assert OneFiring(mid.log, done.log, v'.log, id, now);
    }
  }

  /** Which operations cancel the timer in cell `t`. */
  predicate AsksToCancel(op: Op, cur: Option<nat>, v: View, t: nat) {
    || (op == Cancel(t) && HasHandle(v, t))
    || (op == Drop(t) && HasHandle(v, t) && v.users[t] == 1)
    || (op == CancelSelf && cur == Some(t))
  }

  /** A timer cancelled by an operation, in a callback or not, never fires after it. */
  lemma CancelledByOp(op: Op, cur: Option<nat>, v: View, v': View, t: nat, id: nat, log: seq<Event>, j: nat)
    requires OpStep(op, cur, v, v') && AsksToCancel(op, cur, v, t)
    requires Occupies(v, t, id) && forall other: nat :: Occupies(v, t, other) ==> other == id
    requires v'.log <= log && Legal(log) && |v.log| <= j < |log|
    ensures log[|v.log|] == Cancelled(id) && !(log[j].Fired? && log[j].id == id)
  {
    hide Replay, Legal;
    assert v'.log == v.log + [Cancelled(id)];
    if j > |v.log| {
      CancelledNeverFires(log, |v.log|, j, id);
    }
  }
}
