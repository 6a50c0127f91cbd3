/**
 Progress of a thread left alone, and what the two initialisers arrange.

 The file initialiser numbers every slot of the rounded-up capacity. The in-memory constructor numbers only
 the slots below the capacity it was asked for: unless that is a power of two already, the queue accepts
 that many values in its whole lifetime and then refuses every write, however often it is drained.
 */
module MpmcInit {
  import opened Bits
  import opened MpmcMachine
  import opened MpmcProofs
  import opened MpmcFifo

  // ---------------------------------------------------------------- a thread left alone

  lemma {:induction false} RunAppend<V>(s: State<V>, a: seq<Event<V>>, b: seq<Event<V>>)
    requires Shaped(s)
    ensures Run(s, a + b) == Run(Run(s, a), b)
    decreases a
  {
    if a == [] {
      assert a + b == b;
    } else {
      assert (a + b)[0] == a[0] && (a + b)[1..] == a[1..] + b;
      RunAppend(Exec(s, a[0]), a[1..], b);
    }
  }

  lemma RunOne<V>(s: State<V>, e: Event<V>)
    requires Shaped(s)
    ensures Run(s, [e]) == Exec(s, e)
  {
    assert [e][1..] == [];
    assert Run(Exec(s, e), []) == Exec(s, e);
  }

  lemma RunThen<V>(s: State<V>, es: seq<Event<V>>, e: Event<V>)
    requires Shaped(s)
    ensures Run(s, es + [e]) == Exec(Run(s, es), e)
  {
    RunAppend(s, es, [e]);
    RunOne(Run(s, es), e);
  }

  ghost function WriteCall<V>(t: nat, v: V): seq<Event<V>> {
    [StartWrite(t, v), Tick(t), Tick(t)] + [Tick(t), Tick(t), Tick(t)]
  }

  ghost function ReadCall<V>(t: nat): seq<Event<V>> {
    [StartRead(t), Tick(t), Tick(t)] + [Tick(t), Tick(t), Tick(t)]
  }

  lemma RunTwo<V>(s: State<V>, a: Event<V>, s1: State<V>, b: Event<V>, s2: State<V>)
    requires Shaped(s) && Shaped(s1) && Exec(s, a) == s1 && Exec(s1, b) == s2
    ensures Run(s, [a, b]) == s2
  {
    RunOne(s, a);
    RunThen(s, [a], b);
    assert [a] + [b] == [a, b];
  }

  lemma RunThree<V>(s: State<V>, a: Event<V>, s1: State<V>, b: Event<V>, s2: State<V>, c: Event<V>, s3: State<V>)
    requires Shaped(s) && Shaped(s1) && Shaped(s2)
    requires Exec(s, a) == s1 && Exec(s1, b) == s2 && Exec(s2, c) == s3
    ensures Run(s, [a, b, c]) == s3
  {
    RunTwo(s, a, s1, b, s2);
    RunThen(s, [a, b], c);
    assert [a, b] + [c] == [a, b, c];
  }

  /** A write call's first half against a ready slot ends just before the compare-exchange. */
  lemma WriteCallLooks<V>(s: State<V>, t: nat, v: V)
    requires Shaped(s) && t < |s.threads| && s.threads[t].Idle?
    ensures var q := s.seqs[Slot(s.cap, s.wpos)];
      Run(s, [StartWrite(t, v), Tick(t), Tick(t)]) == s.(threads := s.threads[t :=
        if q == s.wpos then WCas(v, s.wpos) else if q < s.wpos then Idle(false) else WReload(v, s.wpos)])
  {
    var s1 := s.(threads := s.threads[t := WLoad(v)]);
    var s2 := s.(threads := s.threads[t := WSeq(v, s.wpos)]);
    assert s1.threads[t := WSeq(v, s.wpos)] == s2.threads;
    var s3 := Exec(s2, Tick(t));
    RunThree(s, StartWrite(t, v), s1, Tick(t), s2, Tick(t), s3);
    assert s3.threads == s.threads[t := s3.threads[t]];
  }

  lemma WriteCallWins<V>(s: State<V>, t: nat, v: V)
    requires Shaped(s) && t < |s.threads| && s.threads[t] == WCas(v, s.wpos)
    ensures Run(s, [Tick(t), Tick(t), Tick(t)]) == s.(
      wpos := s.wpos + 1, log := s.log + [v], vals := s.vals[Slot(s.cap, s.wpos) := v],
      seqs := s.seqs[Slot(s.cap, s.wpos) := s.wpos + 1], threads := s.threads[t := Idle(true)])
  {
    var i, pos := Slot(s.cap, s.wpos), s.wpos;
    var s1 := s.(wpos := pos + 1, log := s.log + [v], threads := s.threads[t := WFill(v, pos)]);
    var s2 := s1.(vals := s.vals[i := v], threads := s.threads[t := WPublish(v, pos)]);
    assert s1.threads[t := WPublish(v, pos)] == s2.threads;
    var s3 := s2.(seqs := s.seqs[i := pos + 1], threads := s.threads[t := Idle(true)]);
    assert s2.threads[t := Idle(true)] == s3.threads;
    RunThree(s, Tick(t), s1, Tick(t), s2, Tick(t), s3);
  }

  lemma ReadCallLooks<V>(s: State<V>, t: nat)
    requires Shaped(s) && t < |s.threads| && s.threads[t].Idle?
    ensures var q := s.seqs[Slot(s.cap, s.rpos)];
      Run(s, [StartRead(t), Tick(t), Tick(t)]) == s.(threads := s.threads[t :=
        if q == s.rpos + 1 then RCas(s.rpos) else if q < s.rpos + 1 then Idle(false) else RReload(s.rpos)])
  {
    var s1 := s.(threads := s.threads[t := RLoad]);
    var s2 := s.(threads := s.threads[t := RSeq(s.rpos)]);
    assert s1.threads[t := RSeq(s.rpos)] == s2.threads;
    var s3 := Exec(s2, Tick(t));
    RunThree(s, StartRead(t), s1, Tick(t), s2, Tick(t), s3);
    assert s3.threads == s.threads[t := s3.threads[t]];
  }

  lemma ReadCallWins<V>(s: State<V>, t: nat)
    requires Shaped(s) && t < |s.threads| && s.threads[t] == RCas(s.rpos)
    ensures Run(s, [Tick(t), Tick(t), Tick(t)]) == s.(
      rpos := s.rpos + 1, got := s.got[s.rpos := s.vals[Slot(s.cap, s.rpos)]],
      seqs := s.seqs[Slot(s.cap, s.rpos) := s.rpos + s.cap], threads := s.threads[t := Idle(true)])
  {
    var i, pos := Slot(s.cap, s.rpos), s.rpos;
    var s1 := s.(rpos := pos + 1, threads := s.threads[t := RTake(pos)]);
    var s2 := s1.(got := s.got[pos := s.vals[i]], threads := s.threads[t := RPublish(pos)]);
    assert s1.threads[t := RPublish(pos)] == s2.threads;
    var s3 := s2.(seqs := s.seqs[i := pos + s.cap], threads := s.threads[t := Idle(true)]);
    assert s2.threads[t := Idle(true)] == s3.threads;
    RunThree(s, Tick(t), s1, Tick(t), s2, Tick(t), s3);
  }

  /** An idle thread's steps change nothing. */
  lemma IdleTicks<V>(s: State<V>, t: nat)
    requires Shaped(s) && t < |s.threads| && s.threads[t].Idle?
    ensures Run(s, [Tick(t), Tick(t), Tick(t)]) == s
  {
    RunThree(s, Tick(t), s, Tick(t), s, Tick(t), s);
  }

  /** `r` differs from `s` only where a call by thread `t` may change it, and its result was `ok`. */
  ghost predicate OnlyThread<V>(s: State<V>, r: State<V>, t: nat, ok: bool) {
    t < |s.threads| && r.threads == s.threads[t := Idle(ok)]
  }

  lemma WriteCallResult<V>(s: State<V>, t: nat, v: V)
    requires Shaped(s) && t < |s.threads| && s.threads[t].Idle?
    requires s.seqs[Slot(s.cap, s.wpos)] <= s.wpos
    ensures var r := Run(s, WriteCall(t, v)); var ready := s.seqs[Slot(s.cap, s.wpos)] == s.wpos;
      && OnlyThread(s, r, t, ready) && r.rpos == s.rpos && r.got == s.got
      && r.log == if ready then s.log + [v] else s.log
  {
    RunAppend(s, [StartWrite(t, v), Tick(t), Tick(t)], [Tick(t), Tick(t), Tick(t)]);
    WriteCallLooks(s, t, v);
    var m := Run(s, [StartWrite(t, v), Tick(t), Tick(t)]);
    if s.seqs[Slot(s.cap, s.wpos)] < s.wpos {
      IdleTicks(m, t);
    } else {
      WriteCallWins(m, t, v);
    }
  }

  /**
   A writer that is not interrupted finishes in one attempt: it appends its value, or it returns false and
   changes nothing, exactly when the queue is full or a reader still holds the slot's previous ticket.
   */
  lemma SoloWrite<V>(s: State<V>, t: nat, v: V)
    requires Inv(s) && t < |s.threads| && s.threads[t].Idle?
    ensures var r := Run(s, WriteCall(t, v));
      var refused := |Contents(s)| == s.cap || (s.wpos >= s.cap && HasReader(s, s.wpos - s.cap));
      && Inv(r) && OnlyThread(s, r, t, !refused) && r.rpos == s.rpos && r.got == s.got
      && r.log == if refused then s.log else s.log + [v]
  {
    RunKeepsInv(s, WriteCall(t, v));
    SlotIsRemainder(s.cap, s.wpos);
    WriteLoad(s, s.wpos);
    WriteCallResult(s, t, v);
  }

  /** A reader that is not interrupted takes the front value, unless there is none or it is not published yet. */
  lemma SoloRead<V>(s: State<V>, t: nat)
    requires Inv(s) && t < |s.threads| && s.threads[t].Idle?
    ensures var r := Run(s, ReadCall(t));
      var refused := Contents(s) == [] || HasWriter(s, s.rpos);
      && Inv(r) && OnlyThread(s, r, t, !refused) && r.log == s.log
      && r.rpos == (if refused then s.rpos else s.rpos + 1)
      && r.got == if refused then s.got else s.got[s.rpos := Contents(s)[0]]
  {
    RunKeepsInv(s, ReadCall(t));
    RunAppend(s, [StartRead(t), Tick(t), Tick(t)], [Tick(t), Tick(t), Tick(t)]);
    SlotIsRemainder(s.cap, s.rpos);
    ReadLoad(s, s.rpos);
    ReadCallLooks(s, t);
    var m := Run(s, [StartRead(t), Tick(t), Tick(t)]);
    if s.seqs[Slot(s.cap, s.rpos)] < s.rpos + 1 {
      IdleTicks(m, t);
    } else {
      ReadCallWins(m, t);
    }
  }

  // ---------------------------------------------------------------- the in-memory constructor

  lemma MemoryInitAgrees<V>(requested: nat, zero: V, n: nat)
    requires 2 <= requested <= MAX_ROUNDED
    ensures InitMemory(requested, zero, n) == InitFile(requested, zero, n) <==> PowerOfTwo(requested)
  {
    NextPow2Least(requested);
    var m, f := InitMemory(requested, zero, n), InitFile(requested, zero, n);
    if PowerOfTwo(requested) {
      assert m.seqs == f.seqs;
    } else {
      assert m.seqs[requested] != f.seqs[requested];
    }
  }

  lemma MemoryInitInv<V>(requested: nat, zero: V, n: nat)
    requires 2 <= requested <= MAX_ROUNDED
    ensures Inv(InitMemory(requested, zero, n)) <==> PowerOfTwo(requested)
  {
    MemoryInitAgrees(requested, zero, n);
    InitInv(requested, zero, n);
    NextPow2Least(requested);
    if !PowerOfTwo(requested) {
      var s := InitMemory(requested, zero, n);
      ModUnique(0, s.cap, 0, 0);
      assert !SlotOk(s, requested);
    }
  }

  /** With a slot that was never numbered, no position at or beyond it is ever claimed. */
  ghost predicate Starved<V>(s: State<V>, limit: nat) {
    && Shaped(s) && 2 <= limit < s.cap
    && s.rpos <= limit && s.wpos <= limit
    && s.seqs[limit] == 0
    && (forall t :: 0 <= t < |s.threads| ==> PcBelow(s.threads[t], limit))
  }

  ghost predicate PcBelow<V>(pc: Pc<V>, limit: nat) {
    match pc
    case WSeq(_, pos) => pos <= limit
    case WReload(_, pos) => pos <= limit
    case WCas(_, pos) => pos < limit
    case WFill(_, pos) => pos < limit
    case WPublish(_, pos) => pos < limit
    case RSeq(pos) => pos <= limit
    case RReload(pos) => pos <= limit
    case RCas(pos) => pos < limit
    case RTake(pos) => pos < limit
    case RPublish(pos) => pos < limit
    case _ => true
  }

  lemma StarvedStep<V>(s: State<V>, e: Event<V>, limit: nat)
    requires Starved(s, limit)
    ensures Starved(Exec(s, e), limit)
  {
    if e.tid < |s.threads| {
      var pc := s.threads[e.tid];
      assert PcBelow(pc, limit);
      if !pc.Idle? && !pc.WLoad? && !pc.RLoad? {
        SlotIsRemainder(s.cap, pc.pos);
        ModUnique(pc.pos, s.cap, 0, pc.pos);
      }
    }
  }

  lemma {:induction false} StarvedRun<V>(s: State<V>, es: seq<Event<V>>, limit: nat)
    requires Starved(s, limit)
    ensures Starved(Run(s, es), limit)
    decreases es
  {
    if es != [] {
      StarvedStep(s, es[0], limit);
      StarvedRun(Exec(s, es[0]), es[1..], limit);
    }
  }

  /** Some run of a queue made by the in-memory constructor, with one thread, accepts more than `count` writes. */
  ghost predicate AcceptsMoreThan<V(!new)>(requested: nat, zero: V, count: nat)
    requires 2 <= requested <= MAX_ROUNDED
  {
    exists es :: Run(InitMemory(requested, zero, 1), es).wpos > count
  }

  /** An idle, drained, well-formed queue with one thread. */
  ghost predicate Drained<V>(s: State<V>, count: nat) {
    Inv(s) && s.wpos == s.rpos == count && |s.threads| == 1 && s.threads[0].Idle?
  }

  /** One write and one read leave a drained queue drained. */
  lemma WriteThenRead<V>(s: State<V>, v: V, count: nat)
    requires Drained(s, count)
    ensures Drained(Run(Run(s, WriteCall(0, v)), ReadCall(0)), count + 1)
  {
    assert forall q: nat :: !HasReader(s, q);
    SoloWrite(s, 0, v);
    var b := Run(s, WriteCall(0, v));
    assert forall q: nat :: !HasWriter(b, q);
    SoloRead(b, 0);
  }

  /** Alternating writes and reads from an idle, empty queue accepts any number of values. */
  lemma {:induction false} AlternateForever<V>(requested: nat, zero: V, count: nat) returns (es: seq<Event<V>>)
    requires 2 <= requested <= MAX_ROUNDED && PowerOfTwo(requested)
    ensures Drained(Run(InitMemory(requested, zero, 1), es), count)
  {
    var s := InitMemory(requested, zero, 1);
    MemoryInitAgrees(requested, zero, 1);
    InitInv(requested, zero, 1);
    es := [];
    if count > 0 {
      var before := AlternateForever(requested, zero, count - 1);
      WriteThenRead(Run(s, before), zero, count - 1);
      RunAppend(s, before, WriteCall(0, zero));
      RunAppend(s, before + WriteCall(0, zero), ReadCall(0));
      es := before + WriteCall(0, zero) + ReadCall(0);
    }
  }

  /**
   The in-memory constructor makes a lasting queue exactly when the requested capacity is a power of two;
   otherwise no run ever accepts more than `requested` writes.
   */
  lemma MemoryQueueLastsExactly<V(!new)>(requested: nat, zero: V)
    requires 2 <= requested <= MAX_ROUNDED
    ensures (forall count: nat :: AcceptsMoreThan(requested, zero, count)) <==> PowerOfTwo(requested)
    ensures !PowerOfTwo(requested) ==>
      forall n, es :: Run(InitMemory(requested, zero, n), es).wpos <= requested
  {
    if PowerOfTwo(requested) {
      forall count: nat ensures AcceptsMoreThan(requested, zero, count) {
        var es := AlternateForever(requested, zero, count + 1);
        assert Run(InitMemory(requested, zero, 1), es).wpos > count;
      }
    } else {
      NextPow2Least(requested);
      forall n: nat, es ensures Run(InitMemory(requested, zero, n), es).wpos <= requested {
        StarvedRun(InitMemory(requested, zero, n), es, requested);
      }
      assert !AcceptsMoreThan(requested, zero, requested);
    }
  }
}
