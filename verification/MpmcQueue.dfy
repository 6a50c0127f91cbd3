/**
 The queue in the form of its source: `Write` and `Read` are retry loops over shared arrays and positions.
 Between any two atomic accesses the other threads may run; what they do there is a parameter. Each method is
 proved to be a run of the interleaved machine, so everything proved about runs holds of it, and to return
 even under interference: every retry uses up a turn in which the others, or a spurious failure, got in the way.
 */
module MpmcQueue {
  import opened Bits
  import opened MpmcMachine
  import opened MpmcProofs
  import opened MpmcFifo
  import opened MpmcInit

  /** What happens before one atomic access: other threads' events, and whether a weak CAS fails spuriously. */
  datatype Turn<V> = Turn(others: seq<Event<V>>, spurious: bool)

  /** What `read` returns: nothing, or the value of the ticket it won. */
  datatype Received<V> = Nothing | Value(ticket: nat, v: V)

  ghost predicate ByOthers<V>(es: seq<Event<V>>, t: nat) {
    forall i :: 0 <= i < |es| ==> es[i].tid != t
  }

  ghost predicate TurnsByOthers<V>(turns: seq<Turn<V>>, t: nat) {
    forall i :: 0 <= i < |turns| ==> ByOthers(turns[i].others, t)
  }

  /** One call of thread `t`, and whatever the others do meanwhile. */
  ghost predicate IsCall<V>(es: seq<Event<V>>, t: nat) {
    && es != [] && es[0].tid == t && (es[0].StartWrite? || es[0].StartRead?)
    && forall i :: 0 < i < |es| ==> es[i].tid != t || es[i].Tick? || es[i].Spurious?
  }

  lemma CallGoesOn<V>(es: seq<Event<V>>, more: seq<Event<V>>, t: nat)
    requires IsCall(es, t) && forall i :: 0 <= i < |more| ==> more[i].tid != t || more[i].Tick? || more[i].Spurious?
    ensures IsCall(es + more, t) && (es + more)[0] == es[0]
  {
  }

  class Queue<V(0)> {
    const cap: nat
    const seqs: array<int>
    const vals: array<V>
    var rpos: nat
    var wpos: nat
    /** Program counters of all threads, and the history of tickets. */
    var threads: seq<Pc<V>>
    var log: seq<V>
    var got: map<nat, V>

    ghost predicate Separate()
      reads this
    {
      seqs.Length == cap && vals.Length == cap && (seqs as object) != (vals as object)
    }

    ghost predicate Valid()
      reads this, seqs, vals
    {
      Separate() && Inv(View())
    }

    ghost function View(): State<V>
      reads this, seqs, vals
    {
      State(cap, seqs[..], vals[..], rpos, wpos, threads, log, got)
    }

    /** The file initialiser: round the capacity up, number every slot. */
    constructor (requested: nat, zero: V, n: nat)
      requires 2 <= requested <= MAX_ROUNDED
      ensures Valid() && View() == InitFile(requested, zero, n)
      ensures fresh(seqs) && fresh(vals)
    {
      cap := NextPow2(requested);
      seqs := new int[NextPow2(requested)](i => i);
      vals := new V[NextPow2(requested)](_ => zero);
      rpos, wpos := 0, 0;
      threads := seq(n, _ => Idle(true));
      log, got := [], map[];
      new;
      InitInv(requested, zero, n);
      assert View() == InitFile(requested, zero, n);
    }

    /** The in-memory constructor numbers only the slots below the capacity it was asked for. */
    constructor InMemory(requested: nat, zero: V, n: nat)
      requires 2 <= requested <= MAX_ROUNDED
      ensures Separate() && View() == InitMemory(requested, zero, n)
      ensures Valid() <==> PowerOfTwo(requested)
      ensures fresh(seqs) && fresh(vals)
    {
      cap := NextPow2(requested);
      seqs := new int[NextPow2(requested)](i => if i < requested then i else 0);
      vals := new V[NextPow2(requested)](_ => zero);
      rpos, wpos := 0, 0;
      threads := seq(n, _ => Idle(true));
      log, got := [], map[];
      new;
      assert View() == InitMemory(requested, zero, n);
      MemoryInitInv(requested, zero, n);
    }

    /** Overwrite the shared state; only `Others` does this, on behalf of other threads. */
    method Install(s: State<V>)
      requires Separate()
      requires s.cap == cap && |s.seqs| == cap && |s.vals| == cap
      modifies this, seqs, vals
      ensures View() == s
    {
      rpos, wpos, threads, log, got := s.rpos, s.wpos, s.threads, s.log, s.got;
      forall i | 0 <= i < cap {
        seqs[i] := s.seqs[i];
      }
      forall i | 0 <= i < cap {
        vals[i] := s.vals[i];
      }
      assert seqs[..] == s.seqs && vals[..] == s.vals;
    }

    /** The other threads run: any events that are not thread `t`'s. */
    method Others(t: nat, es: seq<Event<V>>)
      requires Valid() && ByOthers(es, t) && t < |threads|
      modifies this, seqs, vals
      ensures Valid() && View() == Run(old(View()), es)
      ensures |threads| == |old(threads)| && threads[t] == old(threads[t])
    {
      ghost var s0 := View();
      RunKeepsInv(s0, es);
      OthersLeave(s0, es, t);
      CapKept(s0, es);
      Install(Run(State(cap, seqs[..], vals[..], rpos, wpos, threads, log, got), es));
    }

    method LoadWpos(t: nat) returns (pos: nat)
      requires Valid() && t < |threads| && (threads[t].WLoad? || threads[t].WReload?)
      modifies `threads
      ensures Valid() && View() == Exec(old(View()), Tick(t))
      ensures pos == wpos && threads[t] == WSeq(old(threads[t]).v, pos)
    {
      StepKeepsInv(View(), Tick(t));
      pos := wpos;
      threads := threads[t := WSeq(threads[t].v, pos)];
    }

    method LoadSeq(t: nat) returns (q: int)
      requires Valid() && t < |threads| && threads[t].WSeq?
      modifies `threads
      ensures Valid() && View() == Exec(old(View()), Tick(t))
      ensures q == seqs[Slot(cap, old(threads[t]).pos)]
    {
      StepKeepsInv(View(), Tick(t));
      var pos := threads[t].pos;
      SlotIsRemainder(cap, pos);
      q := seqs[Slot(cap, pos)];
      var diff := q - pos;
      threads := threads[t := if diff == 0 then WCas(threads[t].v, pos)
                              else if diff < 0 then Idle(false) else WReload(threads[t].v, pos)];
    }

    /** Weak compare-exchange of `wpos`; on failure `pos` is re-read. */
    method CasWpos(t: nat, expected: nat, spurious: bool) returns (won: bool, pos: nat)
      requires Valid() && t < |threads| && threads[t].WCas? && threads[t].pos == expected
      modifies `threads, `wpos, `log
      ensures Valid() && View() == Exec(old(View()), if spurious then Spurious(t) else Tick(t))
      ensures won <==> !spurious && old(wpos) == expected
      ensures if won then pos == expected && threads[t] == WFill(old(threads[t]).v, pos)
              else pos == wpos == old(wpos) && threads[t] == WSeq(old(threads[t]).v, pos)
    {
      StepKeepsInv(View(), if spurious then Spurious(t) else Tick(t));
      var v := threads[t].v;
      if !spurious && wpos == expected {
        won, pos := true, expected;
        wpos, log, threads := expected + 1, log + [v], threads[t := WFill(v, pos)];
      } else {
        won, pos := false, wpos;
        threads := threads[t := WSeq(v, pos)];
      }
    }

    method StoreValue(t: nat, v: V)
      requires Valid() && t < |threads| && threads[t].WFill? && threads[t].v == v
      modifies `threads, vals
      ensures Valid() && View() == Exec(old(View()), Tick(t))
      ensures threads[t] == WPublish(v, old(threads[t]).pos)
    {
      StepKeepsInv(View(), Tick(t));
      var pos := threads[t].pos;
      var i := Slot(cap, pos);
      vals[i] := v;
      threads := threads[t := WPublish(v, pos)];
      assert vals[..] == old(vals[..])[i := v];
    }

    method PublishWrite(t: nat)
      requires Valid() && t < |threads| && threads[t].WPublish?
      modifies `threads, seqs
      ensures Valid() && View() == Exec(old(View()), Tick(t)) && threads[t] == Idle(true)
    {
      StepKeepsInv(View(), Tick(t));
      var pos := threads[t].pos;
      var i := Slot(cap, pos);
      seqs[i] := pos + 1;
      threads := threads[t := Idle(true)];
      assert seqs[..] == old(seqs[..])[i := pos + 1];
    }

    method LoadRpos(t: nat) returns (pos: nat)
      requires Valid() && t < |threads| && (threads[t].RLoad? || threads[t].RReload?)
      modifies `threads
      ensures Valid() && View() == Exec(old(View()), Tick(t))
      ensures pos == rpos && threads[t] == RSeq(pos)
    {
      StepKeepsInv(View(), Tick(t));
      pos := rpos;
      threads := threads[t := RSeq(pos)];
    }

    method LoadSeqForRead(t: nat) returns (q: int)
      requires Valid() && t < |threads| && threads[t].RSeq?
      modifies `threads
      ensures Valid() && View() == Exec(old(View()), Tick(t))
      ensures q == seqs[Slot(cap, old(threads[t]).pos)]
    {
      StepKeepsInv(View(), Tick(t));
      var pos := threads[t].pos;
      q := seqs[Slot(cap, pos)];
      var diff := q - (pos + 1);
      threads := threads[t := if diff == 0 then RCas(pos) else if diff < 0 then Idle(false) else RReload(pos)];
    }

    /** Weak compare-exchange of `rpos`; on failure `pos` is re-read. */
    method CasRpos(t: nat, expected: nat, spurious: bool) returns (won: bool, pos: nat)
      requires Valid() && t < |threads| && threads[t].RCas? && threads[t].pos == expected
      modifies `threads, `rpos
      ensures Valid() && View() == Exec(old(View()), if spurious then Spurious(t) else Tick(t))
      ensures won <==> !spurious && old(rpos) == expected
      ensures if won then pos == expected && threads[t] == RTake(pos)
              else pos == rpos == old(rpos) && threads[t] == RSeq(pos)
    {
      StepKeepsInv(View(), if spurious then Spurious(t) else Tick(t));
      if !spurious && rpos == expected {
        won, pos := true, expected;
        rpos, threads := expected + 1, threads[t := RTake(pos)];
      } else {
        won, pos := false, rpos;
        threads := threads[t := RSeq(pos)];
      }
    }

    /** Hand the slot's value to the caller: what the same ticket's writer stored. */
    method TakeValue(t: nat) returns (v: V)
      requires Valid() && t < |threads| && threads[t].RTake?
      modifies `threads, `got
      ensures Valid() && View() == Exec(old(View()), Tick(t))
      ensures var pos := old(threads[t]).pos;
        threads[t] == RPublish(pos) && pos !in old(got) && pos < |log| && v == log[pos] == got[pos]
    {
      StepKeepsInv(View(), Tick(t));
      TakeDeliversOnce(View(), t);
      var pos := threads[t].pos;
      v := vals[Slot(cap, pos)];
      got := got[pos := v];
      threads := threads[t := RPublish(pos)];
    }

    method PublishRead(t: nat)
      requires Valid() && t < |threads| && threads[t].RPublish?
      modifies `threads, seqs
      ensures Valid() && View() == Exec(old(View()), Tick(t)) && threads[t] == Idle(true)
    {
      StepKeepsInv(View(), Tick(t));
      var pos := threads[t].pos;
      var i := Slot(cap, pos);
      seqs[i] := pos + cap;
      threads := threads[t := Idle(true)];
      assert seqs[..] == old(seqs[..])[i := pos + cap];
    }

    /** The state so far is the run of events `es` from `s0`, and thread `t` stands at `pc`. */
    ghost predicate At(s0: State<V>, es: seq<Event<V>>, t: nat, pc: Pc<V>)
      reads this, seqs, vals
    {
      && Valid() && Shaped(s0) && View() == Run(s0, es) && IsCall(es, t)
      && t < |threads| && |threads| == |s0.threads| && threads[t] == pc
    }

    /** One turn of the others, if there is one left. */
    method Yield(t: nat, turns: seq<Turn<V>>, k: nat, ghost s0: State<V>, ghost es: seq<Event<V>>, ghost pc: Pc<V>)
      returns (next: nat, spurious: bool, ghost more: seq<Event<V>>)
      requires At(s0, es, t, pc) && TurnsByOthers(turns, t) && k <= |turns|
      modifies this, seqs, vals
      ensures At(s0, more, t, pc)
      ensures es != [] && es <= more
      ensures if k < |turns| then next == k + 1 else next == k && !spurious && View() == old(View())
    {
      next, spurious, more := k, false, es;
      if k < |turns| {
        Others(t, turns[k].others);
        RunAppend(s0, es, turns[k].others);
        CallGoesOn(es, turns[k].others, t);
        next, spurious, more := k + 1, turns[k].spurious, es + turns[k].others;
      }
    }

    method StartCall(t: nat, e: Event<V>, turns: seq<Turn<V>>)
      returns (k: nat, ghost es: seq<Event<V>>)
      requires Valid() && t < |threads| && threads[t].Idle? && TurnsByOthers(turns, t)
      requires e.tid == t && (e.StartWrite? || e.StartRead?)
      modifies this, seqs, vals
      ensures k <= |turns| && At(old(View()), es, t, if e.StartWrite? then WLoad(e.v) else RLoad) && es[0] == e
    {
      ghost var s0 := View();
      RunOne(s0, e);
      StepKeepsInv(s0, e);
      threads := threads[t := if e.StartWrite? then WLoad(e.v) else RLoad];
      es := [e];
      var spurious;
      k, spurious, es := Yield(t, turns, 0, s0, es, threads[t]);
    }

    /** A winner stores its value. */
    method Fill(t: nat, v: V, turns: seq<Turn<V>>, k: nat, ghost pos: nat,
                ghost s0: State<V>, ghost es: seq<Event<V>>)
      returns (next: nat, ghost more: seq<Event<V>>)
      requires At(s0, es, t, WFill(v, pos)) && TurnsByOthers(turns, t) && k <= |turns|
      modifies this, seqs, vals
      ensures At(s0, more, t, WPublish(v, pos)) && next <= |turns|
      ensures es != [] && es <= more
    {
      var spurious;
      next, spurious, more := Yield(t, turns, k, s0, es, WFill(v, pos));
      RunThen(s0, more, Tick(t));
      StoreValue(t, v);
      CallGoesOn(more, [Tick(t)], t);
      more := more + [Tick(t)];
    }

    /** Then it publishes the slot to the ticket's reader. */
    method Publish(t: nat, v: V, turns: seq<Turn<V>>, k: nat, ghost pos: nat,
                   ghost s0: State<V>, ghost es: seq<Event<V>>)
      returns (ghost more: seq<Event<V>>)
      requires At(s0, es, t, WPublish(v, pos)) && TurnsByOthers(turns, t) && k <= |turns|
      modifies this, seqs, vals
      ensures At(s0, more, t, Idle(true))
      ensures es != [] && es <= more
      ensures pos < |log| && log[pos] == v
    {
      var j, spurious;
      j, spurious, more := Yield(t, turns, k, s0, es, WPublish(v, pos));
      assert PcOk(View(), threads[t]);
      RunThen(s0, more, Tick(t));
      PublishWrite(t);
      CallGoesOn(more, [Tick(t)], t);
      more := more + [Tick(t)];
    }

    /** A writer looks at the slot of its position; it is told to retry only if the position has moved on. */
    method LookForWrite(t: nat, v: V, pos: nat, turns: seq<Turn<V>>, k: nat,
                        ghost s0: State<V>, ghost es: seq<Event<V>>)
      returns (diff: int, next: nat, ghost more: seq<Event<V>>)
      requires At(s0, es, t, WSeq(v, pos)) && TurnsByOthers(turns, t) && k <= |turns|
      modifies this, seqs, vals
      ensures At(s0, more, t, if diff == 0 then WCas(v, pos) else if diff < 0 then Idle(false) else WReload(v, pos))
      ensures es != [] && es <= more
      ensures pos <= wpos && (diff > 0 ==> pos < wpos)
      ensures k <= next <= |turns| && (next == k ==> k == |turns| && wpos == old(wpos))
    {
      var spurious;
      next, spurious, more := Yield(t, turns, k, s0, es, WSeq(v, pos));
      RunThen(s0, more, Tick(t));
      assert PcOk(View(), threads[t]);
      SlotIsRemainder(cap, pos);
      WriteLoad(View(), pos);
      var q := LoadSeq(t);
      CallGoesOn(more, [Tick(t)], t);
      more := more + [Tick(t)];
      diff := q - pos;
    }

    method TryClaimWrite(t: nat, v: V, pos: nat, turns: seq<Turn<V>>, k: nat,
                         ghost s0: State<V>, ghost es: seq<Event<V>>)
      returns (won: bool, current: nat, next: nat, ghost more: seq<Event<V>>)
      requires At(s0, es, t, WCas(v, pos)) && TurnsByOthers(turns, t) && k <= |turns|
      modifies this, seqs, vals
      ensures At(s0, more, t, if won then WFill(v, pos) else WSeq(v, current))
      ensures es != [] && es <= more
      ensures k <= next <= |turns| && (next == k ==> k == |turns| && (won <==> old(wpos) == pos))
      ensures !won ==> current == wpos
      ensures won ==> WonWrite(s0, more, |more| - 1, t, v, pos)
    {
      var spurious;
      next, spurious, more := Yield(t, turns, k, s0, es, WCas(v, pos));
      assert (more + [Tick(t)])[..|more|] == more;
      var e := if spurious then Spurious(t) else Tick(t);
      RunThen(s0, more, e);
      won, current := CasWpos(t, pos, spurious);
      CallGoesOn(more, [e], t);
      more := more + [e];
    }

    method ReloadWpos(t: nat, v: V, turns: seq<Turn<V>>, k: nat,
                      ghost s0: State<V>, ghost es: seq<Event<V>>)
      returns (pos: nat, next: nat, ghost more: seq<Event<V>>)
      requires t < |threads| && (threads[t].WLoad? || threads[t].WReload?) && threads[t].v == v
      requires At(s0, es, t, threads[t]) && TurnsByOthers(turns, t) && k <= |turns|
      modifies this, seqs, vals
      ensures At(s0, more, t, WSeq(v, pos)) && pos == wpos
      ensures es != [] && es <= more
      ensures k <= next <= |turns|
    {
      var spurious;
      next, spurious, more := Yield(t, turns, k, s0, es, threads[t]);
      RunThen(s0, more, Tick(t));
      pos := LoadWpos(t);
      CallGoesOn(more, [Tick(t)], t);
      more := more + [Tick(t)];
    }

    /**
     `write`: the whole call, under any interference, is a run of the machine in which thread `t` makes this one
     call; it always returns, and when it succeeds its ticket, which was given to nobody before and which one of its
     own steps has won, carries the value.
     */
    method Write(t: nat, v: V, turns: seq<Turn<V>>) returns (ok: bool, ghost es: seq<Event<V>>, ghost ticket: nat)
      requires Valid() && t < |threads| && threads[t].Idle? && TurnsByOthers(turns, t)
      modifies this, seqs, vals
      ensures At(old(View()), es, t, Idle(ok)) && es[0] == StartWrite(t, v)
      ensures ok ==> old(|log|) <= ticket < |log| && log[ticket] == v
      ensures ok ==> exists i: nat :: WonWrite(old(View()), es, i, t, v, ticket)
    {
      hide Run, WonWrite;
      ghost var s0 := View();
      var k, pos;
      ticket := 0;
      k, es := StartCall(t, StartWrite(t, v), turns);
      pos, k, es := ReloadWpos(t, v, turns, k, s0, es);
      while true
        invariant At(s0, es, t, WSeq(v, pos)) && k <= |turns| && es[0] == StartWrite(t, v)
        decreases |turns| - k, if pos == wpos then 0 else 1
      {
        var diff, won;
        diff, k, es := LookForWrite(t, v, pos, turns, k, s0, es);
        if diff == 0 {
          ghost var claimed := pos;
          won, pos, k, es := TryClaimWrite(t, v, pos, turns, k, s0, es);
          if won {
            ghost var upTo := es;
            k, es := Fill(t, v, turns, k, claimed, s0, es);
            es := Publish(t, v, turns, k, claimed, s0, es);
            WriteWon(s0, upTo, es, t, v, claimed);
            return true, es, claimed;
          }
        } else if diff < 0 {
          return false, es, 0;
        } else {
          pos, k, es := ReloadWpos(t, v, turns, k, s0, es);
        }
      }
    }

    /** A winner takes the value of its ticket. */
    method Take(t: nat, turns: seq<Turn<V>>, k: nat, pos: nat, ghost s0: State<V>, ghost es: seq<Event<V>>)
      returns (v: V, next: nat, ghost more: seq<Event<V>>)
      requires At(s0, es, t, RTake(pos)) && TurnsByOthers(turns, t) && k <= |turns|
      modifies this, seqs, vals
      ensures At(s0, more, t, RPublish(pos)) && next <= |turns|
      ensures es != [] && es <= more
      ensures pos in got && pos < |log| && v == got[pos] == log[pos]
    {
      var spurious;
      next, spurious, more := Yield(t, turns, k, s0, es, RTake(pos));
      RunThen(s0, more, Tick(t));
      v := TakeValue(t);
      CallGoesOn(more, [Tick(t)], t);
      more := more + [Tick(t)];
    }

    /** Then it releases the slot for the next lap. */
    method Release(t: nat, turns: seq<Turn<V>>, k: nat, pos: nat, ghost v: V,
                   ghost s0: State<V>, ghost es: seq<Event<V>>)
      returns (ghost more: seq<Event<V>>)
      requires At(s0, es, t, RPublish(pos)) && TurnsByOthers(turns, t) && k <= |turns|
      requires pos in got && pos < |log| && v == got[pos] == log[pos]
      modifies this, seqs, vals
      ensures At(s0, more, t, Idle(true))
      ensures es != [] && es <= more
      ensures pos in got && pos < |log| && v == got[pos] == log[pos]
    {
      var j, spurious;
      j, spurious, more := YieldKeeping(t, turns, k, s0, es, pos, v);
      RunThen(s0, more, Tick(t));
      PublishRead(t);
      CallGoesOn(more, [Tick(t)], t);
      more := more + [Tick(t)];
    }

    /** As `Yield`, while a ticket has been delivered: it stays delivered. */
    method YieldKeeping(t: nat, turns: seq<Turn<V>>, k: nat, ghost s0: State<V>, ghost es: seq<Event<V>>,
                        ghost pos: nat, ghost v: V)
      returns (next: nat, spurious: bool, ghost more: seq<Event<V>>)
      requires At(s0, es, t, RPublish(pos)) && TurnsByOthers(turns, t) && k <= |turns|
      requires pos in got && pos < |log| && v == got[pos] == log[pos]
      modifies this, seqs, vals
      ensures At(s0, more, t, RPublish(pos)) && next <= |turns|
      ensures es != [] && es <= more
      ensures pos in got && pos < |log| && v == got[pos] == log[pos]
    {
      next, spurious, more := k, false, es;
      if k < |turns| {
        DeliveriesAreFinal(View(), turns[k].others, pos);
        LogGrows(View(), turns[k].others);
        Others(t, turns[k].others);
        RunAppend(s0, es, turns[k].others);
        CallGoesOn(es, turns[k].others, t);
        next, spurious, more := k + 1, turns[k].spurious, es + turns[k].others;
      }
    }

    method LookForRead(t: nat, pos: nat, turns: seq<Turn<V>>, k: nat, ghost s0: State<V>, ghost es: seq<Event<V>>)
      returns (diff: int, next: nat, ghost more: seq<Event<V>>)
      requires At(s0, es, t, RSeq(pos)) && TurnsByOthers(turns, t) && k <= |turns|
      modifies this, seqs, vals
      ensures At(s0, more, t, if diff == 0 then RCas(pos) else if diff < 0 then Idle(false) else RReload(pos))
      ensures es != [] && es <= more
      ensures pos <= rpos && (diff > 0 ==> pos < rpos)
      ensures k <= next <= |turns| && (next == k ==> k == |turns| && rpos == old(rpos))
    {
      var spurious;
      next, spurious, more := Yield(t, turns, k, s0, es, RSeq(pos));
      RunThen(s0, more, Tick(t));
      assert PcOk(View(), threads[t]);
      SlotIsRemainder(cap, pos);
      ReadLoad(View(), pos);
      var q := LoadSeqForRead(t);
      CallGoesOn(more, [Tick(t)], t);
      more := more + [Tick(t)];
      diff := q - (pos + 1);
    }

    method TryClaimRead(t: nat, pos: nat, turns: seq<Turn<V>>, k: nat, ghost s0: State<V>, ghost es: seq<Event<V>>)
      returns (won: bool, current: nat, next: nat, ghost more: seq<Event<V>>)
      requires At(s0, es, t, RCas(pos)) && TurnsByOthers(turns, t) && k <= |turns|
      modifies this, seqs, vals
      ensures At(s0, more, t, if won then RTake(pos) else RSeq(current))
      ensures es != [] && es <= more
      ensures k <= next <= |turns| && (next == k ==> k == |turns| && (won <==> old(rpos) == pos))
      ensures if won then current == pos else current == rpos
      ensures won ==> WonRead(s0, more, |more| - 1, t, pos)
    {
      var spurious;
      next, spurious, more := Yield(t, turns, k, s0, es, RCas(pos));
      assert (more + [Tick(t)])[..|more|] == more;
      var e := if spurious then Spurious(t) else Tick(t);
      RunThen(s0, more, e);
      won, current := CasRpos(t, pos, spurious);
      CallGoesOn(more, [e], t);
      more := more + [e];
    }

    method ReloadRpos(t: nat, turns: seq<Turn<V>>, k: nat, ghost s0: State<V>, ghost es: seq<Event<V>>)
      returns (pos: nat, next: nat, ghost more: seq<Event<V>>)
      requires t < |threads| && (threads[t].RLoad? || threads[t].RReload?)
      requires At(s0, es, t, threads[t]) && TurnsByOthers(turns, t) && k <= |turns|
      modifies this, seqs, vals
      ensures At(s0, more, t, RSeq(pos)) && pos == rpos
      ensures es != [] && es <= more
      ensures k <= next <= |turns|
    {
      var spurious;
      next, spurious, more := Yield(t, turns, k, s0, es, threads[t]);
      RunThen(s0, more, Tick(t));
      pos := LoadRpos(t);
      CallGoesOn(more, [Tick(t)], t);
      more := more + [Tick(t)];
    }

    /**
     `read`: a run of the machine that always returns; what it hands over is the value the writer of the same
     ticket stored, and that ticket was won by one of its own steps and delivered to nobody before.
     */
    method Read(t: nat, turns: seq<Turn<V>>) returns (r: Received<V>, ghost es: seq<Event<V>>)
      requires Valid() && t < |threads| && threads[t].Idle? && TurnsByOthers(turns, t)
      modifies this, seqs, vals
      ensures At(old(View()), es, t, Idle(r.Value?)) && es[0] == StartRead(t)
      ensures r.Value? ==> r.ticket in got && r.ticket < |log| && r.v == got[r.ticket] == log[r.ticket]
      ensures r.Value? ==> old(rpos) <= r.ticket && r.ticket !in old(got)
      ensures r.Value? ==> exists i: nat :: WonRead(old(View()), es, i, t, r.ticket)
    {
      hide Run, WonRead;
      ghost var s0 := View();
      var k, pos;
      k, es := StartCall(t, StartRead(t), turns);
      pos, k, es := ReloadRpos(t, turns, k, s0, es);
      while true
        invariant At(s0, es, t, RSeq(pos)) && k <= |turns| && es[0] == StartRead(t)
        decreases |turns| - k, if pos == rpos then 0 else 1
      {
        var diff, won;
        diff, k, es := LookForRead(t, pos, turns, k, s0, es);
        if diff == 0 {
          won, pos, k, es := TryClaimRead(t, pos, turns, k, s0, es);
          if won {
            ghost var upTo := es;
            var v;
            v, k, es := Take(t, turns, k, pos, s0, es);
            es := Release(t, turns, k, pos, v, s0, es);
            ReadWon(s0, upTo, es, t, pos);
            return Value(pos, v), es;
          }
        } else if diff < 0 {
          return Nothing, es;
        } else {
          pos, k, es := ReloadRpos(t, turns, k, s0, es);
        }
      }
    }
  }

  lemma {:induction false} OthersLeave<V>(s: State<V>, es: seq<Event<V>>, t: nat)
    requires Shaped(s) && ByOthers(es, t) && t < |s.threads|
    ensures |Run(s, es).threads| == |s.threads| && Run(s, es).threads[t] == s.threads[t]
    decreases es
  {
    if es != [] {
      assert es[0].tid != t;
      OthersLeave(Exec(s, es[0]), es[1..], t);
    }
  }
}
