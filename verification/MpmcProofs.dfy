/**
 Safety of the queue over every run: the inductive invariant, and that each atomic step is a step of
 a bounded FIFO. Tickets are unbounded; a slot is awaiting ticket `q` when its sequence number is
 `q` (with `q` congruent to the slot), and holds the value of ticket `q - 1` otherwise.
 */
module MpmcProofs {
  import opened Bits
  import opened MpmcMachine

  // ---------------------------------------------------------------- remainders

  lemma NextTicketElsewhere(a: nat, cap: nat)
    requires cap >= 2
    ensures (a + 1) % cap != a % cap
  {
    if (a + 1) % cap == a % cap {
      SameRemainderApart(a, a + 1, cap);
      assert false;
    }
  }

  lemma LapSameSlot(a: nat, cap: nat)
    requires cap > 0
    ensures (a + cap) % cap == a % cap
  {
    assert a == cap * (a / cap) + a % cap;
    assert cap * (a / cap + 1) == cap * (a / cap) + cap;
    ModUnique(a + cap, cap, a / cap + 1, a % cap);
  }

  // ---------------------------------------------------------------- the invariant

  /** Thread `t` won write ticket `q` and has not published it. */
  ghost predicate Writing<V>(s: State<V>, t: nat, q: nat) {
    t < |s.threads| && (s.threads[t].WFill? || s.threads[t].WPublish?) && s.threads[t].pos == q
  }

  /** Thread `t` won read ticket `q` and has not released its slot. */
  ghost predicate Reading<V>(s: State<V>, t: nat, q: nat) {
    t < |s.threads| && (s.threads[t].RTake? || s.threads[t].RPublish?) && s.threads[t].pos == q
  }

  ghost predicate HasWriter<V>(s: State<V>, q: nat) {
    exists t: nat :: Writing(s, t, q)
  }

  ghost predicate HasReader<V>(s: State<V>, q: nat) {
    exists t: nat :: Reading(s, t, q)
  }

  ghost predicate SlotOk<V>(s: State<V>, i: nat)
    requires Shaped(s) && i < s.cap && |s.log| == s.wpos
  {
    var q := s.seqs[i];
    && q >= 0
    && if q % s.cap == i then
         && s.rpos <= q < s.rpos + s.cap
         && (q < s.wpos ==> HasWriter(s, q))
       else
         && q >= 1 && (q - 1) % s.cap == i
         && q - 1 < s.wpos <= q - 1 + s.cap
         && s.vals[i] == s.log[q - 1]
         && (q - 1 < s.rpos ==> HasReader(s, q - 1))
  }

  ghost predicate PcOk<V>(s: State<V>, pc: Pc<V>)
    requires Shaped(s) && |s.log| == s.wpos
  {
    match pc
    case Idle(_) => true
    case WLoad(_) => true
    case WSeq(_, pos) => pos <= s.wpos
    case WCas(_, pos) => pos <= s.wpos && (pos == s.wpos ==> s.seqs[pos % s.cap] == pos)
    case WReload(_, pos) => pos < s.wpos
    case WFill(v, pos) => pos < s.wpos && s.seqs[pos % s.cap] == pos && s.log[pos] == v
    case WPublish(v, pos) =>
      pos < s.wpos && s.seqs[pos % s.cap] == pos && s.log[pos] == v && s.vals[pos % s.cap] == v
    case RLoad => true
    case RSeq(pos) => pos <= s.rpos
    case RCas(pos) => pos <= s.rpos && (pos == s.rpos ==> s.seqs[pos % s.cap] == pos + 1)
    case RReload(pos) => pos < s.rpos
    case RTake(pos) => pos < s.rpos && s.seqs[pos % s.cap] == pos + 1 && pos !in s.got
    case RPublish(pos) => pos < s.rpos && s.seqs[pos % s.cap] == pos + 1 && pos in s.got
  }

  ghost predicate TicketsUnique<V>(s: State<V>) {
    && (forall t: nat, u: nat, q: nat :: Writing(s, t, q) && Writing(s, u, q) ==> t == u)
    && (forall t: nat, u: nat, q: nat :: Reading(s, t, q) && Reading(s, u, q) ==> t == u)
  }

  /** Read tickets below `rpos` have been delivered, or their winner is about to take the value. */
  ghost predicate Delivered<V>(s: State<V>)
    requires |s.log| == s.wpos
  {
    && (forall q :: q in s.got ==> q < s.rpos <= s.wpos && s.got[q] == s.log[q])
    && (forall q: nat :: q < s.rpos && q !in s.got ==> HasReader(s, q))
  }

  ghost predicate Inv<V>(s: State<V>) {
    && Shaped(s)
    && s.rpos <= s.wpos <= s.rpos + s.cap
    && |s.log| == s.wpos
    && (forall i :: 0 <= i < s.cap ==> SlotOk(s, i))
    && (forall t :: 0 <= t < |s.threads| ==> PcOk(s, s.threads[t]))
    && TicketsUnique(s)
    && Delivered(s)
  }

  // ---------------------------------------------------------------- preservation

  /** A step that moves only one thread's local state, keeping its ticket, keeps everything. */
  lemma LocalStep<V>(s: State<V>, t: nat, pc: Pc<V>)
    requires Inv(s) && t < |s.threads|
    requires PcOk(s, pc)
    requires !s.threads[t].WFill? && !s.threads[t].WPublish? && !s.threads[t].RTake? && !s.threads[t].RPublish?
    requires !pc.WFill? && !pc.WPublish? && !pc.RTake? && !pc.RPublish?
    ensures Inv(s.(threads := s.threads[t := pc]))
  {
    var r := s.(threads := s.threads[t := pc]);
    assert forall u: nat, q: nat :: Writing(r, u, q) <==> Writing(s, u, q);
    assert forall u: nat, q: nat :: Reading(r, u, q) <==> Reading(s, u, q);
    forall q: nat ensures HasWriter(s, q) ==> HasWriter(r, q) {}
    forall q: nat ensures HasReader(s, q) ==> HasReader(r, q) {}
    forall i | 0 <= i < s.cap ensures SlotOk(r, i) {
      assert SlotOk(s, i);
    }
  }

  /** The ticket a slot stands for, seen from a position that maps to it: equal, or whole laps away. */
  lemma Facing<V>(s: State<V>, pos: nat) returns (q: int, ticket: nat, free: bool)
    requires Inv(s)
    ensures q == s.seqs[pos % s.cap] == if free then ticket else ticket + 1
    ensures ticket == pos || ticket + s.cap <= pos || pos + s.cap <= ticket
    ensures free ==> s.rpos <= ticket < s.rpos + s.cap && (ticket < s.wpos ==> HasWriter(s, ticket))
    ensures !free ==> ticket < s.wpos <= ticket + s.cap && s.vals[pos % s.cap] == s.log[ticket]
    ensures !free ==> ticket < s.rpos ==> HasReader(s, ticket)
    ensures free <==> q % s.cap == pos % s.cap
  {
    var i := pos % s.cap;
    q := s.seqs[i];
    assert SlotOk(s, i);
    free := q % s.cap == i;
    ticket := if free then q else q - 1;
    if ticket < pos {
      SameRemainderApart(ticket, pos, s.cap);
    } else if ticket > pos {
      SameRemainderApart(pos, ticket, s.cap);
    }
  }

  lemma WriterSeq<V>(s: State<V>, q: nat)
    requires Inv(s) && HasWriter(s, q)
    ensures s.seqs[q % s.cap] == q < s.wpos
  {
    var t: nat :| Writing(s, t, q);
    assert PcOk(s, s.threads[t]);
  }

  lemma ReaderSeq<V>(s: State<V>, q: nat)
    requires Inv(s) && HasReader(s, q)
    ensures s.seqs[q % s.cap] == q + 1 && q < s.rpos
  {
    var t: nat :| Reading(s, t, q);
    assert PcOk(s, s.threads[t]);
  }

  /**
   What a writer learns from the sequence number it loads: too high means its position is stale, too low
   means its position is current and the queue is full or the slot's previous ticket is still being read.
   */
  lemma WriteLoad<V>(s: State<V>, pos: nat)
    requires Inv(s) && pos <= s.wpos
    ensures s.seqs[pos % s.cap] > pos ==> pos < s.wpos
    ensures pos == s.wpos ==>
      (s.seqs[pos % s.cap] < pos <==>
        s.wpos - s.rpos == s.cap || (pos >= s.cap && HasReader(s, pos - s.cap)))
    ensures s.seqs[pos % s.cap] < pos ==> pos == s.wpos && pos >= s.cap
    ensures s.seqs[pos % s.cap] == pos == s.wpos ==> s.wpos < s.rpos + s.cap
  {
    var q, ticket, free := Facing(s, pos);
    if pos >= s.cap && HasReader(s, pos - s.cap) {
      ReaderSeq(s, pos - s.cap);
      LapSameSlot(pos - s.cap, s.cap);
    }
  }

  /** What a reader learns: too high means stale; too low means the queue is empty or its front is unpublished. */
  lemma ReadLoad<V>(s: State<V>, pos: nat)
    requires Inv(s) && pos <= s.rpos
    ensures s.seqs[pos % s.cap] > pos + 1 ==> pos < s.rpos
    ensures pos == s.rpos ==>
      (s.seqs[pos % s.cap] < pos + 1 <==> s.rpos == s.wpos || HasWriter(s, pos))
    ensures s.seqs[pos % s.cap] < pos + 1 ==> pos == s.rpos
    ensures s.seqs[pos % s.cap] == pos + 1 && pos == s.rpos ==> pos < s.wpos && s.vals[pos % s.cap] == s.log[pos]
  {
    var q, ticket, free := Facing(s, pos);
    if HasWriter(s, pos) {
      WriterSeq(s, pos);
    }
  }

  lemma StepWriteCas<V>(s: State<V>, t: nat)
    requires Inv(s) && t < |s.threads| && s.threads[t].WCas? && s.threads[t].pos == s.wpos
    ensures Inv(Advance(s, t))
  {
    hide Slot, BitAnd, PowerOfTwo;
    var pos := s.wpos;
    var r := Advance(s, t);
    assert PcOk(s, s.threads[t]);
    WriteLoad(s, pos);
    assert Writing(r, t, pos);
    assert HasWriter(r, pos);
    assert forall u: nat, q: nat :: Writing(r, u, q) <==> Writing(s, u, q) || (u == t && q == pos);
    assert forall u: nat, q: nat :: Reading(r, u, q) <==> Reading(s, u, q);
    NoOwnerYet(s);
    forall i | 0 <= i < s.cap ensures SlotOk(r, i) {
      assert SlotOk(s, i);
      KeepOwners(s, r, i, s.seqs[i]);
      WriteCasSlot(s, r, i);
    }
    forall u | 0 <= u < |s.threads| ensures PcOk(r, r.threads[u]) {
      assert PcOk(s, s.threads[u]);
    }
    forall q: nat | q < r.rpos && q !in r.got ensures HasReader(r, q) {
      KeepOwners(s, r, 0, q);
    }
  }

  lemma WriteCasSlot<V>(s: State<V>, r: State<V>, i: nat)
    requires Inv(s) && i < s.cap
    requires s.seqs[s.wpos % s.cap] == s.wpos
    requires r.cap == s.cap && r.seqs == s.seqs && r.vals == s.vals && r.rpos == s.rpos && r.wpos == s.wpos + 1
    requires |r.log| == r.wpos && s.log == r.log[..s.wpos]
    requires HasWriter(r, s.wpos)
    requires s.seqs[i] >= 0
    requires HasWriter(s, s.seqs[i]) ==> HasWriter(r, s.seqs[i])
    requires s.seqs[i] >= 1 && HasReader(s, s.seqs[i] - 1) ==> HasReader(r, s.seqs[i] - 1)
    ensures SlotOk(r, i)
  {
    assert SlotOk(s, i);
    var q := s.seqs[i];
    if q % s.cap != i && s.wpos == q - 1 + s.cap {
      LapSameSlot(q - 1, s.cap);
      assert false;
    }
  }

  /** The next tickets are nobody's. */
  lemma NoOwnerYet<V>(s: State<V>)
    requires Inv(s)
    ensures forall u: nat :: !Writing(s, u, s.wpos) && !Reading(s, u, s.rpos)
  {
    if HasWriter(s, s.wpos) {
      WriterSeq(s, s.wpos);
    }
    if HasReader(s, s.rpos) {
      ReaderSeq(s, s.rpos);
    }
    forall u: nat ensures !Writing(s, u, s.wpos) && !Reading(s, u, s.rpos) {
      assert !HasWriter(s, s.wpos) && !HasReader(s, s.rpos);
    }
  }

  lemma KeepOwners<V>(s: State<V>, r: State<V>, i: int, q: int)
    requires forall u: nat, p: nat :: Writing(s, u, p) ==> Writing(r, u, p)
    requires forall u: nat, p: nat :: Reading(s, u, p) ==> Reading(r, u, p)
    ensures q >= 0 && HasWriter(s, q) ==> HasWriter(r, q)
    ensures q >= 0 && HasReader(s, q) ==> HasReader(r, q)
    ensures q >= 1 && HasReader(s, q - 1) ==> HasReader(r, q - 1)
  {
    if q >= 0 && HasWriter(s, q) {
      var u: nat :| Writing(s, u, q);
      assert Writing(r, u, q);
    }
    if q >= 0 && HasReader(s, q) {
      var u: nat :| Reading(s, u, q);
      assert Reading(r, u, q);
    }
    if q >= 1 && HasReader(s, q - 1) {
      var u: nat :| Reading(s, u, q - 1);
      assert Reading(r, u, q - 1);
    }
  }

  lemma StepReadCas<V>(s: State<V>, t: nat)
    requires Inv(s) && t < |s.threads| && s.threads[t].RCas? && s.threads[t].pos == s.rpos
    ensures Inv(Advance(s, t))
  {
    hide Slot, BitAnd, PowerOfTwo;
    var pos := s.rpos;
    var r := Advance(s, t);
    assert PcOk(s, s.threads[t]);
    ReadLoad(s, pos);
    NextTicketElsewhere(pos, s.cap);
    assert Reading(r, t, pos);
    assert HasReader(r, pos);
    assert forall u: nat, q: nat :: Writing(r, u, q) <==> Writing(s, u, q);
    assert forall u: nat, q: nat :: Reading(r, u, q) <==> Reading(s, u, q) || (u == t && q == pos);
    NoOwnerYet(s);
    forall i | 0 <= i < s.cap ensures SlotOk(r, i) {
      assert SlotOk(s, i);
      KeepOwners(s, r, i, s.seqs[i]);
    }
    forall u | 0 <= u < |s.threads| ensures PcOk(r, r.threads[u]) {
      assert PcOk(s, s.threads[u]);
    }
    forall q: nat | q < r.rpos && q !in r.got ensures HasReader(r, q) {
      KeepOwners(s, r, 0, q);
    }
  }

  lemma StepFill<V>(s: State<V>, t: nat)
    requires Inv(s) && t < |s.threads| && s.threads[t].WFill?
    ensures Inv(Advance(s, t))
  {
    hide Slot, BitAnd, PowerOfTwo;
    var pos := s.threads[t].pos;
    var r := Advance(s, t);
    SlotIsRemainder(s.cap, pos);
    assert PcOk(s, s.threads[t]);
    assert forall u: nat, q: nat :: Writing(r, u, q) <==> Writing(s, u, q);
    assert forall u: nat, q: nat :: Reading(r, u, q) <==> Reading(s, u, q);
    forall i | 0 <= i < s.cap ensures SlotOk(r, i) {
      assert SlotOk(s, i);
      KeepOwners(s, r, i, s.seqs[i]);
    }
    forall u | 0 <= u < |s.threads| ensures PcOk(r, r.threads[u]) {
      FillKeepsOthers(s, t, u);
    }
    forall q: nat | q < r.rpos && q !in r.got ensures HasReader(r, q) {
      KeepOwners(s, r, 0, q);
    }
  }

  lemma FillKeepsOthers<V>(s: State<V>, t: nat, u: nat)
    requires Inv(s) && t < |s.threads| && s.threads[t].WFill? && u < |s.threads|
    ensures |Advance(s, t).log| == s.wpos && PcOk(Advance(s, t), Advance(s, t).threads[u])
  {
    var pos := s.threads[t].pos;
    SlotIsRemainder(s.cap, pos);
    assert PcOk(s, s.threads[t]) && PcOk(s, s.threads[u]);
    if u != t && s.threads[u].WPublish? {
      var other := s.threads[u].pos;
      assert Writing(s, t, pos) && Writing(s, u, other);
      assert pos % s.cap != other % s.cap;
    }
  }

  lemma StepTake<V>(s: State<V>, t: nat)
    requires Inv(s) && t < |s.threads| && s.threads[t].RTake?
    ensures Inv(Advance(s, t))
    ensures Advance(s, t).got == s.got[s.threads[t].pos := s.log[s.threads[t].pos]]
  {
    hide Slot, BitAnd, PowerOfTwo, SlotOk, PcOk, Delivered;
    var r := Advance(s, t);
    TakeOwners(s, t);
    forall i | 0 <= i < s.cap ensures SlotOk(r, i) {
      TakeKeepsSlot(s, t, i);
    }
    forall u | 0 <= u < |s.threads| ensures PcOk(r, r.threads[u]) {
      TakeKeepsPc(s, t, u);
    }
    TakeDelivers(s, t);
  }

  lemma TakeOwners<V>(s: State<V>, t: nat)
    requires Inv(s) && t < |s.threads| && s.threads[t].RTake?
    ensures forall u: nat, q: nat :: Writing(Advance(s, t), u, q) <==> Writing(s, u, q)
    ensures forall u: nat, q: nat :: Reading(Advance(s, t), u, q) <==> Reading(s, u, q)
  {
    hide Slot, BitAnd, PowerOfTwo, SlotOk, PcOk, Delivered;
  }

  lemma TakeKeepsSlot<V>(s: State<V>, t: nat, i: nat)
    requires Inv(s) && t < |s.threads| && s.threads[t].RTake? && i < s.cap
    ensures |Advance(s, t).log| == s.wpos && SlotOk(Advance(s, t), i)
  {
    hide Slot, BitAnd, PowerOfTwo, PcOk, Delivered;
    TakeOwners(s, t);
    assert SlotOk(s, i);
    KeepOwners(s, Advance(s, t), i, s.seqs[i]);
  }

  /** The value taken is the one stored for the ticket. */
  lemma TakeDelivers<V>(s: State<V>, t: nat)
    requires Inv(s) && t < |s.threads| && s.threads[t].RTake?
    ensures Advance(s, t).got == s.got[s.threads[t].pos := s.log[s.threads[t].pos]]
    ensures |Advance(s, t).log| == Advance(s, t).wpos && Delivered(Advance(s, t))
  {
    hide Slot, BitAnd, PowerOfTwo;
    var pos := s.threads[t].pos;
    var r := Advance(s, t);
    SlotIsRemainder(s.cap, pos);
    assert PcOk(s, s.threads[t]);
    NextTicketElsewhere(pos, s.cap);
    assert SlotOk(s, pos % s.cap);
    TakeOwners(s, t);
    forall q: nat | q < r.rpos && q !in r.got ensures HasReader(r, q) {
      KeepOwners(s, r, 0, q);
    }
  }

  lemma TakeKeepsPc<V>(s: State<V>, t: nat, u: nat)
    requires Inv(s) && t < |s.threads| && s.threads[t].RTake? && u < |s.threads|
    ensures |Advance(s, t).log| == s.wpos && PcOk(Advance(s, t), Advance(s, t).threads[u])
  {
    assert PcOk(s, s.threads[t]) && PcOk(s, s.threads[u]);
    if u != t && s.threads[u].RTake? {
      assert Reading(s, t, s.threads[t].pos) && Reading(s, u, s.threads[u].pos);
    }
  }

  /** What a thread knows about its own slot is untouched by a store to another slot. */
  lemma OtherSlotStored<V>(s: State<V>, r: State<V>, k: nat, pc: Pc<V>)
    requires Shaped(s) && |s.log| == s.wpos && k < s.cap
    requires r.cap == s.cap && |r.seqs| == |s.seqs| && r.vals == s.vals && r.log == s.log && r.got == s.got
    requires r.rpos == s.rpos && r.wpos == s.wpos
    requires forall i :: 0 <= i < s.cap && i != k ==> r.seqs[i] == s.seqs[i]
    requires PcOk(s, pc)
    requires (pc.WCas? ==> pc.pos < s.wpos || pc.pos % s.cap != k) && (pc.RCas? ==> pc.pos < s.rpos || pc.pos % s.cap != k)
    requires pc.WFill? || pc.WPublish? || pc.RTake? || pc.RPublish? ==> pc.pos % s.cap != k
    ensures PcOk(r, pc)
  {
  }

  /** Another thread's local knowledge about sequence numbers survives a publishing store by a slot's owner. */
  lemma PublishKeepsOthers<V>(s: State<V>, t: nat, u: nat)
    requires Inv(s) && t < |s.threads| && (s.threads[t].WPublish? || s.threads[t].RPublish?)
    requires u < |s.threads| && u != t
    ensures |Advance(s, t).log| == s.wpos && PcOk(Advance(s, t), s.threads[u])
  {
    var pos, pc := s.threads[t].pos, s.threads[u];
    SlotIsRemainder(s.cap, pos);
    assert PcOk(s, s.threads[t]) && PcOk(s, pc);
    if (pc.WCas? && pc.pos == s.wpos) || pc.WFill? || pc.WPublish? {
      assert !pc.WCas? ==> Writing(s, u, pc.pos);
      assert s.threads[t].WPublish? ==> Writing(s, t, pos);
      DifferentSlots(s, t, pc.pos, 0);
    } else if (pc.RCas? && pc.pos == s.rpos) || pc.RTake? || pc.RPublish? {
      assert !pc.RCas? ==> Reading(s, u, pc.pos);
      assert s.threads[t].RPublish? ==> Reading(s, t, pos);
      DifferentSlots(s, t, pc.pos, 1);
    }
    OtherSlotStored(s, Advance(s, t), pos % s.cap, pc);
  }

  /** If another position's slot shows that position (plus `bit`), it is not the slot thread `t` is about to publish. */
  lemma DifferentSlots<V>(s: State<V>, t: nat, other: nat, bit: nat)
    requires Inv(s) && t < |s.threads| && (s.threads[t].WPublish? || s.threads[t].RPublish?)
    requires bit <= 1 && (s.threads[t].pos != other || (bit == 1) != s.threads[t].RPublish?)
    ensures s.seqs[other % s.cap] == other + bit ==> other % s.cap != s.threads[t].pos % s.cap
  {
    var pos := s.threads[t].pos;
    assert PcOk(s, s.threads[t]);
    NextTicketElsewhere(pos, s.cap);
    NextTicketElsewhere(other, s.cap);
  }

  lemma StepWritePublish<V>(s: State<V>, t: nat)
    requires Inv(s) && t < |s.threads| && s.threads[t].WPublish?
    ensures Inv(Advance(s, t))
  {
    hide Slot, BitAnd, PowerOfTwo;
    var pos := s.threads[t].pos;
    var r := Advance(s, t);
    SlotIsRemainder(s.cap, pos);
    assert PcOk(s, s.threads[t]) && Writing(s, t, pos);
    assert SlotOk(s, pos % s.cap);
    NextTicketElsewhere(pos, s.cap);
    assert forall u: nat, q: nat :: Writing(r, u, q) <==> Writing(s, u, q) && u != t;
    assert forall u: nat, q: nat :: Reading(r, u, q) <==> Reading(s, u, q);
    OwnersKept(s, r, t, pos);
    forall i | 0 <= i < s.cap ensures SlotOk(r, i) {
      assert SlotOk(s, i);
    }
    forall u | 0 <= u < |s.threads| ensures PcOk(r, r.threads[u]) {
      if u != t {
        PublishKeepsOthers(s, t, u);
      }
    }
  }

  /** When a writer's ticket ends, every other ticket keeps its owner. */
  lemma OwnersKept<V>(s: State<V>, r: State<V>, t: nat, pos: nat)
    requires Writing(s, t, pos)
    requires forall u: nat, p: nat :: Writing(r, u, p) <==> Writing(s, u, p) && u != t
    requires forall u: nat, p: nat :: Reading(r, u, p) <==> Reading(s, u, p)
    ensures forall q: nat {:trigger HasWriter(r, q)} :: HasWriter(s, q) && q != pos ==> HasWriter(r, q)
    ensures forall q: nat {:trigger HasReader(r, q)} :: HasReader(s, q) ==> HasReader(r, q)
  {
    forall q: nat | HasWriter(s, q) && q != pos ensures HasWriter(r, q) {
      var u: nat :| Writing(s, u, q);
      assert Writing(r, u, q);
    }
    forall q: nat | HasReader(s, q) ensures HasReader(r, q) {
      var u: nat :| Reading(s, u, q);
      assert Reading(r, u, q);
    }
  }

  lemma StepReadPublish<V>(s: State<V>, t: nat)
    requires Inv(s) && t < |s.threads| && s.threads[t].RPublish?
    ensures Inv(Advance(s, t))
  {
    hide Slot, BitAnd, PowerOfTwo;
    var pos := s.threads[t].pos;
    var r := Advance(s, t);
    SlotIsRemainder(s.cap, pos);
    assert PcOk(s, s.threads[t]) && Reading(s, t, pos);
    assert forall u: nat, q: nat :: Writing(r, u, q) <==> Writing(s, u, q);
    assert forall u: nat, q: nat :: Reading(r, u, q) <==> Reading(s, u, q) && u != t;
    ReadOwnersKept(s, r, t, pos);
    forall i | 0 <= i < s.cap ensures SlotOk(r, i) {
      ReadPublishSlot(s, t, i);
    }
    forall u | 0 <= u < |s.threads| ensures PcOk(r, r.threads[u]) {
      if u != t {
        PublishKeepsOthers(s, t, u);
      }
    }
  }

  /** When a reader's ticket ends, every other ticket keeps its owner. */
  lemma ReadOwnersKept<V>(s: State<V>, r: State<V>, t: nat, pos: nat)
    requires Reading(s, t, pos)
    requires forall u: nat, p: nat :: Writing(r, u, p) <==> Writing(s, u, p)
    requires forall u: nat, p: nat :: Reading(r, u, p) <==> Reading(s, u, p) && u != t
    ensures forall q: nat {:trigger HasWriter(r, q)} :: HasWriter(s, q) ==> HasWriter(r, q)
    ensures forall q: nat {:trigger HasReader(r, q)} :: HasReader(s, q) && q != pos ==> HasReader(r, q)
  {
    forall q: nat | HasReader(s, q) && q != pos ensures HasReader(r, q) {
      var u: nat :| Reading(s, u, q);
      assert Reading(r, u, q);
    }
    forall q: nat | HasWriter(s, q) ensures HasWriter(r, q) {
      var u: nat :| Writing(s, u, q);
      assert Writing(r, u, q);
    }
  }

  lemma ReadPublishSlot<V>(s: State<V>, t: nat, i: nat)
    requires Inv(s) && t < |s.threads| && s.threads[t].RPublish? && i < s.cap
    requires forall q: nat {:trigger HasWriter(Advance(s, t), q)} :: HasWriter(s, q) ==> HasWriter(Advance(s, t), q)
    requires forall q: nat {:trigger HasReader(Advance(s, t), q)} ::
      HasReader(s, q) && q != s.threads[t].pos ==> HasReader(Advance(s, t), q)
    ensures |Advance(s, t).log| == s.wpos && SlotOk(Advance(s, t), i)
  {
    hide Slot, BitAnd, PowerOfTwo;
    var pos := s.threads[t].pos;
    SlotIsRemainder(s.cap, pos);
    assert PcOk(s, s.threads[t]);
    assert SlotOk(s, i) && SlotOk(s, pos % s.cap);
    NextTicketElsewhere(pos, s.cap);
    LapSameSlot(pos, s.cap);
  }

  lemma StepKeepsInv<V>(s: State<V>, e: Event<V>)
    requires Inv(s)
    ensures Inv(Exec(s, e))
  {
    if e.tid < |s.threads| {
      var t := e.tid;
      var pc := s.threads[t];
      assert PcOk(s, pc);
      match e
      case StartWrite(_, v) =>
        if pc.Idle? {
          LocalStep(s, t, WLoad(v));
        }
      case StartRead(_) =>
        if pc.Idle? {
          LocalStep(s, t, RLoad);
        }
      case Spurious(_) =>
        if pc.WCas? || pc.RCas? {
          LocalStep(s, t, Exec(s, e).threads[t]);
        }
      case Tick(_) =>
        AdvanceKeepsInv(s, t);
    }
  }

  lemma AdvanceKeepsInv<V>(s: State<V>, t: nat)
    requires Inv(s) && t < |s.threads|
    ensures Inv(Advance(s, t))
  {
    var pc := s.threads[t];
    assert PcOk(s, pc);
    if pc.WCas? && s.wpos == pc.pos {
      StepWriteCas(s, t);
    } else if pc.RCas? && s.rpos == pc.pos {
      StepReadCas(s, t);
    } else if pc.WFill? {
      StepFill(s, t);
    } else if pc.WPublish? {
      StepWritePublish(s, t);
    } else if pc.RTake? {
      StepTake(s, t);
    } else if pc.RPublish? {
      StepReadPublish(s, t);
    } else if !pc.Idle? {
      if pc.WSeq? {
        SlotIsRemainder(s.cap, pc.pos);
        WriteLoad(s, pc.pos);
      } else if pc.RSeq? {
        SlotIsRemainder(s.cap, pc.pos);
        ReadLoad(s, pc.pos);
      }
      LocalStep(s, t, Advance(s, t).threads[t]);
    }
  }

  lemma InitInv<V>(requested: nat, zero: V, n: nat)
    requires 2 <= requested <= MAX_ROUNDED
    ensures Inv(InitFile(requested, zero, n))
  {
    NextPow2Least(requested);
    var s := InitFile(requested, zero, n);
    forall i | 0 <= i < s.cap ensures SlotOk(s, i) {
      ModUnique(i, s.cap, 0, i);
    }
  }

  lemma {:induction false} RunKeepsInv<V>(s: State<V>, es: seq<Event<V>>)
    requires Inv(s)
    ensures Inv(Run(s, es))
    decreases es
  {
    if es != [] {
      StepKeepsInv(s, es[0]);
      RunKeepsInv(Exec(s, es[0]), es[1..]);
    }
  }
}
