/**
 What the queue promises its users, for every run of any number of producers and consumers:
 it is a bounded FIFO, no two threads are ever inside one slot, and a call fails only for a reason.
 */
module MpmcFifo {
  import opened Bits
  import opened MpmcMachine
  import opened MpmcProofs

  // ---------------------------------------------------------------- the specification

  datatype Op<V> = Enqueue(v: V) | Dequeue(v: V)

  /** A bounded FIFO can perform `op`: there is room for a new item, and only the oldest item leaves. */
  ghost predicate FifoCan<V>(cap: nat, items: seq<V>, op: Op<V>) {
    match op
    case Enqueue(v) => |items| < cap
    case Dequeue(v) => items != [] && v == items[0]
  }

  ghost function FifoDo<V>(cap: nat, items: seq<V>, op: Op<V>): seq<V>
    requires FifoCan(cap, items, op)
  {
    match op
    case Enqueue(v) => items + [v]
    case Dequeue(_) => items[1..]
  }

  ghost predicate FifoStep<V>(cap: nat, items: seq<V>, op: Op<V>, after: seq<V>) {
    FifoCan(cap, items, op) && after == FifoDo(cap, items, op)
  }

  ghost predicate FifoRun<V>(cap: nat, items: seq<V>, ops: seq<Op<V>>, after: seq<V>)
    decreases ops
  {
    if ops == [] then after == items
    else FifoCan(cap, items, ops[0]) && FifoRun(cap, FifoDo(cap, items, ops[0]), ops[1..], after)
  }

  // ---------------------------------------------------------------- the abstraction

  /** Values whose write ticket is taken and whose read ticket is not. */
  ghost function Contents<V>(s: State<V>): seq<V>
    requires s.rpos <= s.wpos <= |s.log|
  {
    s.log[s.rpos..s.wpos]
  }

  /**
   The operation an event performs, if any: winning the compare-exchange on a position. A dequeue carries
   what its callback was handed in the final state `f` (or still finds in the slot, if it was not called yet).
   */
  ghost function OpOf<V>(s: State<V>, e: Event<V>, f: State<V>): seq<Op<V>>
    requires Shaped(s)
  {
    if !e.Tick? || e.tid >= |s.threads| then []
    else match s.threads[e.tid]
      case WCas(v, pos) => if pos == s.wpos then [Enqueue(v)] else []
      case RCas(pos) =>
        SlotIsRemainder(s.cap, pos);
        if pos != s.rpos then []
        else [Dequeue(if pos in f.got then f.got[pos] else s.vals[Slot(s.cap, pos)])]
      case _ => []
  }

  ghost function History<V>(s: State<V>, es: seq<Event<V>>, f: State<V>): seq<Op<V>>
    requires Shaped(s)
    decreases es
  {
    if es == [] then [] else OpOf(s, es[0], f) + History(Exec(s, es[0]), es[1..], f)
  }

  // ---------------------------------------------------------------- refinement

  lemma {:induction false} LogGrows<V>(s: State<V>, es: seq<Event<V>>)
    requires Inv(s)
    ensures s.log <= Run(s, es).log
    decreases es
  {
    if es != [] {
      StepKeepsInv(s, es[0]);
      assert s.log <= Exec(s, es[0]).log;
      LogGrows(Exec(s, es[0]), es[1..]);
    }
  }

  /** Nor does the read position go back, and every ticket delivered is below it. */
  lemma {:induction false} ReadsGrow<V>(s: State<V>, es: seq<Event<V>>)
    requires Inv(s)
    ensures s.rpos <= Run(s, es).rpos
    ensures forall q :: q in s.got ==> q < s.rpos
    decreases es
  {
    if es != [] {
      StepKeepsInv(s, es[0]);
      ReadsGrow(Exec(s, es[0]), es[1..]);
    }
  }

  /** The event at `i` is the compare-exchange by which thread `t` won this write ticket. */
  ghost predicate WonWrite<V>(s: State<V>, es: seq<Event<V>>, i: nat, t: nat, v: V, ticket: nat)
    requires Shaped(s)
  {
    && i < |es| && es[i] == Tick(t)
    && var at := Run(s, es[..i]);
       t < |at.threads| && at.threads[t] == WCas(v, ticket) && at.wpos == ticket
  }

  ghost predicate WonRead<V>(s: State<V>, es: seq<Event<V>>, i: nat, t: nat, ticket: nat)
    requires Shaped(s)
  {
    && i < |es| && es[i] == Tick(t)
    && var at := Run(s, es[..i]);
       t < |at.threads| && at.threads[t] == RCas(ticket) && at.rpos == ticket
  }

  /** However the run goes on, that ticket was won in it, and was given to nobody before it. */
  lemma WriteWon<V>(s: State<V>, es: seq<Event<V>>, more: seq<Event<V>>, t: nat, v: V, ticket: nat)
    requires Inv(s) && es != [] && es <= more && WonWrite(s, es, |es| - 1, t, v, ticket)
    ensures |s.log| <= ticket && exists i: nat :: WonWrite(s, more, i, t, v, ticket)
  {
    var i := |es| - 1;
    assert es[..i] == more[..i];
    RunKeepsInv(s, es[..i]);
    LogGrows(s, es[..i]);
    assert WonWrite(s, more, i, t, v, ticket);
  }

  lemma ReadWon<V>(s: State<V>, es: seq<Event<V>>, more: seq<Event<V>>, t: nat, ticket: nat)
    requires Inv(s) && es != [] && es <= more && WonRead(s, es, |es| - 1, t, ticket)
    ensures s.rpos <= ticket && ticket !in s.got && exists i: nat :: WonRead(s, more, i, t, ticket)
  {
    var i := |es| - 1;
    assert es[..i] == more[..i];
    ReadsGrow(s, es[..i]);
    assert WonRead(s, more, i, t, ticket);
  }

  lemma WinnerEnqueues<V>(s: State<V>, t: nat)
    requires Inv(s) && t < |s.threads| && s.threads[t].WCas? && s.threads[t].pos == s.wpos
    ensures |Contents(s)| < s.cap
    ensures Contents(Advance(s, t)) == Contents(s) + [s.threads[t].v]
  {
    assert PcOk(s, s.threads[t]);
    WriteLoad(s, s.wpos);
  }

  lemma WinnerDequeues<V>(s: State<V>, t: nat)
    requires Inv(s) && t < |s.threads| && s.threads[t].RCas? && s.threads[t].pos == s.rpos
    ensures s.rpos < s.wpos && Contents(s)[0] == s.log[s.rpos] == s.vals[Slot(s.cap, s.rpos)]
    ensures Contents(Advance(s, t)) == Contents(s)[1..]
  {
    assert PcOk(s, s.threads[t]);
    SlotIsRemainder(s.cap, s.rpos);
    ReadLoad(s, s.rpos);
  }

  /** A step that wins no position leaves the contents alone. */
  lemma QuietStep<V>(s: State<V>, e: Event<V>, f: State<V>)
    requires Inv(s) && Inv(Exec(s, e))
    ensures Shaped(s) && s.rpos <= s.wpos <= |s.log| && Exec(s, e).rpos <= Exec(s, e).wpos <= |Exec(s, e).log|
    ensures OpOf(s, e, f) == [] ==> Contents(Exec(s, e)) == Contents(s)
  {
    hide SlotOk, PcOk, Delivered, TicketsUnique;
  }

  lemma WinnerStep<V>(s: State<V>, e: Event<V>, f: State<V>)
    requires Inv(s) && Inv(Exec(s, e)) && Inv(f) && s.log <= f.log && OpOf(s, e, f) != []
    ensures |OpOf(s, e, f)| == 1 && FifoStep(s.cap, Contents(s), OpOf(s, e, f)[0], Contents(Exec(s, e)))
  {
    hide SlotOk, PcOk, TicketsUnique;
    if s.threads[e.tid].WCas? {
      WinnerEnqueues(s, e.tid);
    } else {
      WinnerDequeues(s, e.tid);
    }
  }

  /** Each atomic step is at most one operation of the bounded FIFO, the one `OpOf` names. */
  lemma StepRefines<V>(s: State<V>, e: Event<V>, f: State<V>)
    requires Inv(s) && Inv(Exec(s, e)) && Inv(f) && s.log <= f.log
    ensures |OpOf(s, e, f)| <= 1
    ensures OpOf(s, e, f) == [] ==> Contents(Exec(s, e)) == Contents(s)
    ensures OpOf(s, e, f) != [] ==> FifoStep(s.cap, Contents(s), OpOf(s, e, f)[0], Contents(Exec(s, e)))
  {
    hide Inv, Exec;
    QuietStep(s, e, f);
    if OpOf(s, e, f) != [] {
      WinnerStep(s, e, f);
    }
  }

  /** At most one operation followed by a FIFO run is a FIFO run. */
  lemma Prepend<V>(cap: nat, items: seq<V>, op: seq<Op<V>>, mid: seq<V>, rest: seq<Op<V>>, after: seq<V>)
    requires |op| <= 1
    requires if op == [] then mid == items else FifoStep(cap, items, op[0], mid)
    requires FifoRun(cap, mid, rest, after)
    ensures FifoRun(cap, items, op + rest, after)
  {
    if op == [] {
      assert op + rest == rest;
    } else {
      assert (op + rest)[1..] == rest;
    }
  }

  /** Every run, whatever the interleaving, is a run of the bounded FIFO. */
  lemma {:induction false} RunRefinesFifo<V>(s: State<V>, es: seq<Event<V>>, f: State<V>)
    requires Inv(s) && f == Run(s, es)
    ensures Inv(f) && s.log <= f.log
    ensures FifoRun(s.cap, Contents(s), History(s, es, f), Contents(f))
    decreases es
  {
    if es != [] {
      RunKeepsInv(s, es);
      LogGrows(s, es);
      var m := NextState(s, es[0], f);
      RunRefinesFifo(m, es[1..], f);
      Prepend(s.cap, Contents(s), OpOf(s, es[0], f), Contents(m), History(m, es[1..], f), Contents(f));
    }
  }

  lemma NextState<V>(s: State<V>, e: Event<V>, f: State<V>) returns (m: State<V>)
    requires Inv(s) && Inv(f) && s.log <= f.log
    ensures m == Exec(s, e) && Inv(m) && m.cap == s.cap && |OpOf(s, e, f)| <= 1
    ensures if OpOf(s, e, f) == [] then Contents(m) == Contents(s)
            else FifoStep(s.cap, Contents(s), OpOf(s, e, f)[0], Contents(m))
  {
    m := Exec(s, e);
    StepKeepsInv(s, e);
    StepRefines(s, e, f);
  }

  /** The queue made by the file initialiser is a FIFO of the rounded-up capacity in every run. */
  lemma QueueIsFifo<V>(requested: nat, zero: V, n: nat, es: seq<Event<V>>)
    requires 2 <= requested <= MAX_ROUNDED
    ensures var s := InitFile(requested, zero, n); var f := Run(s, es);
      && Inv(f) && f.cap == NextPow2(requested)
      && FifoRun(f.cap, [], History(s, es, f), Contents(f))
      && |Contents(f)| <= f.cap
  {
    var s := InitFile(requested, zero, n);
    InitInv(requested, zero, n);
    RunKeepsInv(s, es);
    RunRefinesFifo(s, es, Run(s, es));
    CapKept(s, es);
    assert Contents(s) == [];
  }

  lemma {:induction false} CapKept<V>(s: State<V>, es: seq<Event<V>>)
    requires Shaped(s)
    ensures Run(s, es).cap == s.cap && |Run(s, es).threads| == |s.threads|
    decreases es
  {
    if es != [] {
      CapKept(Exec(s, es[0]), es[1..]);
    }
  }

  // ---------------------------------------------------------------- tickets and slots

  ghost predicate InsideSlot<V>(s: State<V>, t: nat, i: nat)
    requires s.cap > 0
  {
    && t < |s.threads|
    && (s.threads[t].WFill? || s.threads[t].WPublish? || s.threads[t].RTake? || s.threads[t].RPublish?)
    && Slot(s.cap, s.threads[t].pos) == i
  }

  /** No two threads are ever inside the same slot, writers and readers alike. */
  lemma SlotsAreExclusive<V>(s: State<V>, t: nat, u: nat, i: nat)
    requires Inv(s) && InsideSlot(s, t, i) && InsideSlot(s, u, i)
    ensures t == u
  {
    var p, q := s.threads[t].pos, s.threads[u].pos;
    SlotIsRemainder(s.cap, p);
    SlotIsRemainder(s.cap, q);
    assert PcOk(s, s.threads[t]) && PcOk(s, s.threads[u]);
    NextTicketElsewhere(p, s.cap);
    NextTicketElsewhere(q, s.cap);
    assert Writing(s, t, p) || Reading(s, t, p);
    assert Writing(s, u, q) || Reading(s, u, q);
  }

  /**
   Taking a value: the winner of read ticket `q` gets exactly what the winner of write ticket `q` stored,
   and nobody was given that ticket before.
   */
  lemma TakeDeliversOnce<V>(s: State<V>, t: nat)
    requires Inv(s) && t < |s.threads| && s.threads[t].RTake?
    ensures var q := s.threads[t].pos;
      && q !in s.got && q < s.rpos <= s.wpos
      && Exec(s, Tick(t)).got == s.got[q := s.log[q]]
  {
    assert PcOk(s, s.threads[t]);
    StepTake(s, t);
  }

  /** A delivery is final: no later step of any thread changes what a ticket was given. */
  lemma {:induction false} DeliveriesAreFinal<V>(s: State<V>, es: seq<Event<V>>, q: nat)
    requires Inv(s) && q in s.got
    ensures q in Run(s, es).got && Run(s, es).got[q] == s.got[q] == s.log[q]
    decreases es
  {
    if es != [] {
      StepKeepsInv(s, es[0]);
      if es[0].Tick? && es[0].tid < |s.threads| && s.threads[es[0].tid].RTake? {
        TakeDeliversOnce(s, es[0].tid);
      }
      DeliveriesAreFinal(Exec(s, es[0]), es[1..], q);
    }
  }

  // ---------------------------------------------------------------- when calls fail or retry

  /**
   At its sequence load `write` gives up exactly when its position is current and either the queue is full or
   a reader is still inside the slot's previous ticket; it retries only when its position is out of date.
   */
  lemma WriteFailsExactly<V>(s: State<V>, t: nat)
    requires Inv(s) && t < |s.threads| && s.threads[t].WSeq?
    ensures var pos := s.threads[t].pos; var next := Exec(s, Tick(t)).threads[t];
      && (next == Idle(false) <==>
            pos == s.wpos && (|Contents(s)| == s.cap || (pos >= s.cap && HasReader(s, pos - s.cap))))
      && (next.WReload? ==> pos < s.wpos)
      && (next.WCas? && pos == s.wpos ==> |Contents(s)| < s.cap)
  {
    assert PcOk(s, s.threads[t]);
    SlotIsRemainder(s.cap, s.threads[t].pos);
    WriteLoad(s, s.threads[t].pos);
  }

  /** `read` gives up exactly when the queue is empty or its front ticket is won but not yet published. */
  lemma ReadFailsExactly<V>(s: State<V>, t: nat)
    requires Inv(s) && t < |s.threads| && s.threads[t].RSeq?
    ensures var pos := s.threads[t].pos; var next := Exec(s, Tick(t)).threads[t];
      && (next == Idle(false) <==> pos == s.rpos && (Contents(s) == [] || HasWriter(s, pos)))
      && (next.RReload? ==> pos < s.rpos)
  {
    assert PcOk(s, s.threads[t]);
    SlotIsRemainder(s.cap, s.threads[t].pos);
    ReadLoad(s, s.threads[t].pos);
  }

  /** A compare-exchange that fails for real has lost: the shared position is past the local one. */
  lemma CasFailureMeansLost<V>(s: State<V>, t: nat)
    requires Inv(s) && t < |s.threads|
    ensures s.threads[t].WCas? && Exec(s, Tick(t)).threads[t].WSeq? ==> s.threads[t].pos < s.wpos
    ensures s.threads[t].RCas? && Exec(s, Tick(t)).threads[t].RSeq? ==> s.threads[t].pos < s.rpos
  {
    assert PcOk(s, s.threads[t]);
  }
}
