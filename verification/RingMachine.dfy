/**
 The single-producer single-consumer byte ring as a state machine: every load, every byte copied and every
 store is a step, and the producer's and the consumer's steps interleave in any order. Positions count bytes
 from the beginning of time. The buffer is mapped twice in a row, so an address beyond its end is the same
 byte as the one a capacity earlier.
 */
module RingMachine {
  import opened Bits

  /** `size` bytes wanted; `w` and `r` are positions as loaded. */
  datatype Producer =
    | WIdle
    | WLoaded(data: seq<int>, w: nat)
    | WCopying(data: seq<int>, w: nat, done: nat)

  /** A read of at least `size` bytes, whose callback will take up to `take` of those ready. */
  datatype Consumer =
    | RIdle
    | RLoaded(size: nat, take: nat, r: nat)
    | RCopying(take: nat, r: nat, ready: nat, got: seq<int>)

  datatype State = State(capacity: nat, buf: seq<int>, rpos: nat, wpos: nat, producer: Producer, consumer: Consumer,
                         written: seq<int>, consumed: seq<int>)

  datatype Event =
    | WriteBegin(data: seq<int>)
    | WriteStep
    | ReadBegin(size: nat, take: nat)
    | ReadStep

  ghost predicate Sound(s: State) {
    PowerOfTwo(s.capacity) && |s.buf| == s.capacity
  }

  /** The byte an address of the double mapping stands for. */
  function Alias(capacity: nat, address: nat): nat
    requires address < 2 * capacity
  {
    if address < capacity then address else address - capacity
  }

  /** The address of the `i`th byte from a position on: masked start, and on from there. */
  function Address(capacity: nat, pos: nat, i: nat): (a: nat)
    requires capacity > 0 && i < capacity
    ensures a < 2 * capacity
  {
    AndBelow(pos, capacity - 1);
    BitAnd(pos, capacity - 1) + i
  }

  /** The slot of a position. */
  function Slot(capacity: nat, pos: nat): (k: nat)
    requires capacity > 0
    ensures k < capacity
  {
    pos % capacity
  }

  lemma AddressIsSlot(capacity: nat, pos: nat, i: nat)
    requires PowerOfTwo(capacity) && i < capacity
    ensures capacity > 0 && Alias(capacity, Address(capacity, pos, i)) == Slot(capacity, pos + i)
  {
    hide BitAnd, Pow2;
    var k: nat :| capacity == Pow2(k);
    AndMask(pos, k);
    WrapsOnce(pos, capacity, i);
  }

  lemma WrapsOnce(pos: nat, capacity: nat, i: nat)
    requires i < capacity
    ensures (pos + i) % capacity == if pos % capacity + i < capacity then pos % capacity + i else pos % capacity + i - capacity
  {
    Quotient(pos, capacity);
    var q, r := pos / capacity, pos % capacity;
    if r + i < capacity {
      ModUnique(pos + i, capacity, q, r + i);
    } else {
      assert (q + 1) * capacity == q * capacity + capacity;
      ModUnique(pos + i, capacity, q + 1, r + i - capacity);
    }
  }

  /** Different positions less than a capacity apart are in different slots. */
  lemma SlotsDiffer(capacity: nat, p: nat, q: nat)
    requires capacity > 0 && p < q < p + capacity
    ensures Slot(capacity, p) != Slot(capacity, q)
  {
    if p % capacity == q % capacity {
      SameRemainderApart(p, q, capacity);
    }
  }

  function Init(capacity: nat): State {
    State(capacity, seq(capacity, _ => 0), 0, 0, WIdle, RIdle, [], [])
  }

  /** One step of `write`: load the read position and check for room; copy a byte; or publish. */
  function StepWrite(s: State): State
    requires s.capacity > 0 && |s.buf| == s.capacity
  {
    match s.producer
    case WIdle => s
    case WLoaded(data, w) =>
      if s.capacity - (w - s.rpos) < |data| then s.(producer := WIdle) else s.(producer := WCopying(data, w, 0))
    case WCopying(data, w, done) =>
      if done < |data| && done < s.capacity then
        s.(buf := s.buf[Alias(s.capacity, Address(s.capacity, w, done)) := data[done]],
           producer := WCopying(data, w, done + 1))
      else s.(wpos := w + |data|, written := s.written + data, producer := WIdle)
  }

  /** One step of `read`: load the write position and check what is ready; take a byte; or release. */
  function StepRead(s: State): State
    requires s.capacity > 0 && |s.buf| == s.capacity
  {
    match s.consumer
    case RIdle => s
    case RLoaded(size, take, r) =>
      var ready := s.wpos - r;
      if ready <= 0 || ready < size then s.(consumer := RIdle)
      else s.(consumer := RCopying(if take < ready then take else ready, r, ready, []))
    case RCopying(take, r, ready, got) =>
      if |got| < take && |got| < s.capacity then
        s.(consumer := RCopying(take, r, ready, got + [s.buf[Alias(s.capacity, Address(s.capacity, r, |got|))]]))
      else s.(rpos := r + |got|, consumed := s.consumed + got, consumer := RIdle)
  }

  function Exec(s: State, e: Event): State
    requires s.capacity > 0 && |s.buf| == s.capacity
  {
    match e
    case WriteBegin(data) => if s.producer.WIdle? then s.(producer := WLoaded(data, s.wpos)) else s
    case WriteStep => StepWrite(s)
    case ReadBegin(size, take) => if s.consumer.RIdle? then s.(consumer := RLoaded(size, take, s.rpos)) else s
    case ReadStep => StepRead(s)
  }

  // ---------------------------------------------------------------- what every step keeps

  /** The unread bytes are in their slots. */
  ghost predicate Stored(s: State)
    requires s.capacity > 0 && |s.buf| == s.capacity
  {
    |s.written| == s.wpos && forall p: nat :: s.rpos <= p < s.wpos ==> s.buf[Slot(s.capacity, p)] == s.written[p]
  }

  /** The producer works behind the write position, where there is room, and has copied its first `done` bytes. */
  ghost predicate ProducerOk(s: State)
    requires s.capacity > 0 && |s.buf| == s.capacity
  {
    match s.producer
    case WIdle => true
    case WLoaded(data, w) => w == s.wpos
    case WCopying(data, w, done) =>
      && w == s.wpos && done <= |data| && w + |data| <= s.rpos + s.capacity
      && forall i: nat :: i < done ==> s.buf[Slot(s.capacity, w + i)] == data[i]
  }

  /** The consumer works from the read position on, within what was published, and got what was written. */
  ghost predicate ConsumerOk(s: State) {
    match s.consumer
    case RIdle => true
    case RLoaded(size, take, r) => r == s.rpos
    case RCopying(take, r, ready, got) =>
      r == s.rpos && |got| <= take <= ready && r + ready <= s.wpos <= |s.written| && got == s.written[r..r + |got|]
  }

  ghost predicate Inv(s: State) {
    && Sound(s) && s.capacity > 0
    && s.rpos <= s.wpos <= s.rpos + s.capacity
    && Stored(s) && s.consumed == s.written[..s.rpos]
    && ProducerOk(s) && ConsumerOk(s)
  }

  lemma InitInv(capacity: nat)
    requires PowerOfTwo(capacity)
    ensures Inv(Init(capacity))
  {
  }

  /** The byte being written is in no slot that is still unread or was copied before. */
  lemma CopyStep(s: State)
    requires Inv(s) && s.producer.WCopying? && s.producer.done < |s.producer.data|
    ensures s.producer.done < s.capacity && Inv(StepWrite(s))
  {
    var data, w, done := s.producer.data, s.producer.w, s.producer.done;
    AddressIsSlot(s.capacity, w, done);
    var s' := StepWrite(s);
    forall p: nat | s.rpos <= p < s.wpos ensures s'.buf[Slot(s.capacity, p)] == s.written[p] {
      SlotsDiffer(s.capacity, p, w + done);
    }
    forall i: nat | i < done + 1 ensures s'.buf[Slot(s.capacity, w + i)] == data[i] {
      if i < done {
        SlotsDiffer(s.capacity, w + i, w + done);
      }
    }
  }

  lemma PublishStep(s: State)
    requires Inv(s) && s.producer.WCopying? && s.producer.done == |s.producer.data|
    ensures Inv(StepWrite(s))
  {
    var data, w := s.producer.data, s.producer.w;
    var s' := StepWrite(s);
    forall p: nat | s'.rpos <= p < s'.wpos ensures s'.buf[Slot(s.capacity, p)] == s'.written[p] {
      if p >= w {
        assert w + (p - w) == p;
      }
    }
  }

  lemma TakeStep(s: State)
    requires Inv(s) && s.consumer.RCopying? && |s.consumer.got| < s.consumer.take
    ensures |s.consumer.got| < s.capacity && Inv(StepRead(s))
  {
    var r, got := s.consumer.r, s.consumer.got;
    AddressIsSlot(s.capacity, r, |got|);
    assert s.written[r..r + |got| + 1] == s.written[r..r + |got|] + [s.written[r + |got|]];
  }

  lemma ReleaseStep(s: State)
    requires Inv(s) && s.consumer.RCopying? && |s.consumer.got| == s.consumer.take
    ensures Inv(StepRead(s))
  {
    var r, got := s.consumer.r, s.consumer.got;
    assert s.written[..r + |got|] == s.written[..r] + s.written[r..r + |got|];
  }

  /** Every step of either side keeps the invariant. */
  lemma StepKeepsInv(s: State, e: Event)
    requires Inv(s)
    ensures Inv(Exec(s, e))
  {
    hide Stored;
    match e {
      case WriteStep =>
        if s.producer.WCopying? {
          if s.producer.done < |s.producer.data| {
            CopyStep(s);
          } else {
            PublishStep(s);
          }
        } else {
          ProducerLoads(s);
        }
      case ReadStep =>
        if s.consumer.RCopying? {
          if |s.consumer.got| < s.consumer.take {
            TakeStep(s);
          } else {
            ReleaseStep(s);
          }
        } else {
          ConsumerLoads(s);
        }
      case WriteBegin(_) => Begins(s, e);
      case ReadBegin(_, _) => Begins(s, e);
    }
  }

  lemma ProducerLoads(s: State)
    requires Inv(s) && !s.producer.WCopying?
    ensures Inv(StepWrite(s))
  {
  }

  lemma ConsumerLoads(s: State)
    requires Inv(s) && !s.consumer.RCopying?
    ensures Inv(StepRead(s))
  {
  }

  lemma Begins(s: State, e: Event)
    requires Inv(s) && (e.WriteBegin? || e.ReadBegin?)
    ensures Inv(Exec(s, e))
  {
  }

  // ---------------------------------------------------------------- whole runs

  function Run(s: State, events: seq<Event>): (r: State)
    requires s.capacity > 0 && |s.buf| == s.capacity
    ensures r.capacity == s.capacity && |r.buf| == s.capacity
  {
    if events == [] then s else Exec(Run(s, events[..|events| - 1]), events[|events| - 1])
  }

  lemma {:induction false} RunKeepsInv(capacity: nat, events: seq<Event>)
    requires PowerOfTwo(capacity) && capacity > 0
    ensures Inv(Run(Init(capacity), events))
    decreases |events|
  {
    if events == [] {
      InitInv(capacity);
    } else {
      RunKeepsInv(capacity, events[..|events| - 1]);
      StepKeepsInv(Run(Init(capacity), events[..|events| - 1]), events[|events| - 1]);
    }
  }

  /**
   Whatever the interleaving, the bytes consumed are a prefix of the bytes written, and the positions stay
   within a capacity of each other.
   */
  lemma ConsumedIsPrefix(capacity: nat, events: seq<Event>)
    requires PowerOfTwo(capacity) && capacity > 0
    ensures var s := Run(Init(capacity), events);
            s.consumed <= s.written && 0 <= s.wpos - s.rpos <= capacity && |s.consumed| == s.rpos && |s.written| == s.wpos
  {
    RunKeepsInv(capacity, events);
  }

  /** Where the producer is copying, no byte is unread: its window shares no slot with the consumer's. */
  lemma WindowsAreDisjoint(capacity: nat, events: seq<Event>, i: nat, p: nat)
    requires PowerOfTwo(capacity) && capacity > 0
    requires var s := Run(Init(capacity), events);
             s.producer.WCopying? && i < |s.producer.data| && s.rpos <= p < s.wpos
    ensures var s := Run(Init(capacity), events);
            i < capacity && Alias(capacity, Address(capacity, s.producer.w, i)) != Slot(capacity, p)
  {
    var s := Run(Init(capacity), events);
    RunKeepsInv(capacity, events);
    AddressIsSlot(capacity, s.producer.w, i);
    SlotsDiffer(capacity, p, s.producer.w + i);
  }

  /** A write gives up exactly when, as it loads the read position, the bytes do not fit. */
  lemma WriteFailsExactly(s: State)
    requires Inv(s) && s.producer.WLoaded?
    ensures StepWrite(s).producer.WIdle? <==> s.wpos + |s.producer.data| > s.rpos + s.capacity
    ensures StepWrite(s).written == s.written
  {
  }

  /** A read gives up exactly when, as it loads the write position, too little is there. */
  lemma ReadFailsExactly(s: State)
    requires Inv(s) && s.consumer.RLoaded?
    ensures StepRead(s).consumer.RIdle? <==> s.wpos == s.rpos || s.wpos - s.rpos < s.consumer.size
  {
  }
}
