/**
 The bounded multi-producer multi-consumer queue as an interleaved machine.

 Every shared access of `write` and `read` (a load, a compare-exchange, the user's touch of the slot,
 the publishing store) is one atomic step of one thread; any number of threads interleave freely.
 `log` and `got` are history: the value each write ticket stored, and the value each read ticket took.
 */
module MpmcMachine {
  import opened Bits

  /** Where a thread stands in `write` or `read`; `pos` is its local copy of the shared position. */
  datatype Pc<V> =
    | Idle(ok: bool)                    // between calls; result of the last one
    | WLoad(v: V)                       // about to load wpos
    | WSeq(v: V, pos: nat)              // about to load the slot's sequence number
    | WCas(v: V, pos: nat)              // saw seq == wpos, about to compare-exchange
    | WReload(v: V, pos: nat)           // saw seq > wpos, about to load wpos again
    | WFill(v: V, pos: nat)             // won ticket pos, about to store the value
    | WPublish(v: V, pos: nat)          // stored, about to publish
    | RLoad
    | RSeq(pos: nat)
    | RCas(pos: nat)
    | RReload(pos: nat)
    | RTake(pos: nat)                   // won ticket pos, about to take the value
    | RPublish(pos: nat)                // taken, about to release the slot

  datatype State<V> = State(
    cap: nat, seqs: seq<int>, vals: seq<V>, rpos: nat, wpos: nat,
    threads: seq<Pc<V>>, log: seq<V>, got: map<nat, V>)

  /** A scheduling decision: a call starts, a thread takes its next step, or its CAS fails spuriously. */
  datatype Event<V> =
    | StartWrite(tid: nat, v: V)
    | StartRead(tid: nat)
    | Tick(tid: nat)
    | Spurious(tid: nat)

  /** `pos & mask_` */
  function Slot(cap: nat, pos: nat): (i: nat)
    requires cap > 0
    ensures i < cap
  {
    AndBelow(pos, cap - 1);
    BitAnd(pos, cap - 1)
  }

  ghost predicate Shaped<V>(s: State<V>) {
    && s.cap >= 2 && PowerOfTwo(s.cap)
    && |s.seqs| == s.cap && |s.vals| == s.cap
  }

  lemma SlotIsRemainder(cap: nat, pos: nat)
    requires cap > 0 && PowerOfTwo(cap)
    ensures Slot(cap, pos) == pos % cap
  {
    var k: nat :| cap == Pow2(k);
    AndMask(pos, k);
  }

  /** One atomic step of thread `t`. */
  function Advance<V>(s: State<V>, t: nat): (r: State<V>)
    requires Shaped(s) && t < |s.threads|
    ensures Shaped(r)
  {
    match s.threads[t]
    case Idle(_) => s
    case WLoad(v) => s.(threads := s.threads[t := WSeq(v, s.wpos)])
    case WSeq(v, pos) =>
      SlotIsRemainder(s.cap, pos);
      var diff := s.seqs[Slot(s.cap, pos)] - pos;
      s.(threads := s.threads[t :=
        if diff == 0 then WCas(v, pos) else if diff < 0 then Idle(false) else WReload(v, pos)])
    case WCas(v, pos) =>
      if s.wpos == pos
      then s.(wpos := pos + 1, log := s.log + [v], threads := s.threads[t := WFill(v, pos)])
      else s.(threads := s.threads[t := WSeq(v, s.wpos)])
    case WReload(v, pos) => s.(threads := s.threads[t := WSeq(v, s.wpos)])
    case WFill(v, pos) =>
      SlotIsRemainder(s.cap, pos);
      s.(vals := s.vals[Slot(s.cap, pos) := v], threads := s.threads[t := WPublish(v, pos)])
    case WPublish(v, pos) =>
      SlotIsRemainder(s.cap, pos);
      s.(seqs := s.seqs[Slot(s.cap, pos) := pos + 1], threads := s.threads[t := Idle(true)])
    case RLoad => s.(threads := s.threads[t := RSeq(s.rpos)])
    case RSeq(pos) =>
      SlotIsRemainder(s.cap, pos);
      var diff := s.seqs[Slot(s.cap, pos)] - (pos + 1);
      s.(threads := s.threads[t :=
        if diff == 0 then RCas(pos) else if diff < 0 then Idle(false) else RReload(pos)])
    case RCas(pos) =>
      if s.rpos == pos
      then s.(rpos := pos + 1, threads := s.threads[t := RTake(pos)])
      else s.(threads := s.threads[t := RSeq(s.rpos)])
    case RReload(pos) => s.(threads := s.threads[t := RSeq(s.rpos)])
    case RTake(pos) =>
      SlotIsRemainder(s.cap, pos);
      s.(got := s.got[pos := s.vals[Slot(s.cap, pos)]], threads := s.threads[t := RPublish(pos)])
    case RPublish(pos) =>
      SlotIsRemainder(s.cap, pos);
      s.(seqs := s.seqs[Slot(s.cap, pos) := pos + s.cap], threads := s.threads[t := Idle(true)])
  }

  /** A weak compare-exchange may fail although the position matches; it still re-reads the position. */
  function FailSpuriously<V>(s: State<V>, t: nat): (r: State<V>)
    requires Shaped(s) && t < |s.threads|
    ensures Shaped(r)
  {
    match s.threads[t]
    case WCas(v, _) => s.(threads := s.threads[t := WSeq(v, s.wpos)])
    case RCas(_) => s.(threads := s.threads[t := RSeq(s.rpos)])
    case _ => s
  }

  /** Events that name no thread, or start a call inside a call, change nothing. */
  function Exec<V>(s: State<V>, e: Event<V>): (r: State<V>)
    requires Shaped(s)
    ensures Shaped(r)
  {
    if e.tid >= |s.threads| then s
    else match e
      case StartWrite(t, v) => if s.threads[t].Idle? then s.(threads := s.threads[t := WLoad(v)]) else s
      case StartRead(t) => if s.threads[t].Idle? then s.(threads := s.threads[t := RLoad]) else s
      case Tick(t) => Advance(s, t)
      case Spurious(t) => FailSpuriously(s, t)
  }

  function Run<V>(s: State<V>, es: seq<Event<V>>): (r: State<V>)
    requires Shaped(s)
    ensures Shaped(r)
    decreases es
  {
    if es == [] then s else Run(Exec(s, es[0]), es[1..])
  }

  /** The file-backed initialisation: every slot of the rounded-up capacity is numbered. */
  ghost function InitFile<V>(requested: nat, zero: V, n: nat): (s: State<V>)
    requires 2 <= requested <= MAX_ROUNDED
    ensures Shaped(s)
  {
    NextPow2Least(requested);
    var cap := NextPow2(requested);
    State(cap, seq(cap, i => i), seq(cap, _ => zero), 0, 0, seq(n, _ => Idle(true)), [], map[])
  }

  /** The in-memory constructor: zeroed memory, but only the slots below the requested capacity are numbered. */
  ghost function InitMemory<V>(requested: nat, zero: V, n: nat): (s: State<V>)
    requires 2 <= requested <= MAX_ROUNDED
    ensures Shaped(s)
  {
    NextPow2Least(requested);
    var cap := NextPow2(requested);
    State(cap, seq(cap, i => if i < requested then i else 0), seq(cap, _ => zero), 0, 0,
          seq(n, _ => Idle(true)), [], map[])
  }
}
