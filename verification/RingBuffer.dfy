/** The byte ring as an object: reads and writes copy through the doubled mapping of one array. */
module RingBuffer {
  import opened Bits
  import opened RingMachine

  class MagicRing {
    const buf: array<int>
    var rpos: nat
    var wpos: nat
    /** Everything ever written. */
    ghost var written: seq<int>

    ghost predicate Valid()
      reads this, buf
    {
      && PowerOfTwo(buf.Length) && buf.Length > 0 && rpos <= wpos <= rpos + buf.Length && |written| == wpos
      && forall p: nat :: rpos <= p < wpos ==> buf[Slot(buf.Length, p)] == written[p]
    }

    /** The bytes written and not yet read. */
    ghost function Unread(): seq<int>
      requires Valid()
      reads this, buf
    {
      written[rpos..]
    }

    /** `mask` throws unless the capacity is a power of two. */
    constructor (capacity: nat)
      requires PowerOfTwo(capacity) && capacity > 0
      ensures Valid() && Unread() == [] && buf.Length == capacity && fresh(buf)
    {
      buf := new int[capacity](_ => 0);
      rpos, wpos, written := 0, 0, [];
    }

    /** `size`: how many bytes can be read. */
    function Size(): (n: int)
      requires Valid()
      reads this, buf
      ensures n == |Unread()|
    {
      wpos - rpos
    }

    /** Copy bytes in from address `wpos & mask` on. */
    method CopyIn(data: seq<int>)
      requires Valid() && wpos + |data| <= rpos + buf.Length
      modifies buf
      ensures Valid()
      ensures forall i: nat :: i < |data| ==> buf[Slot(buf.Length, wpos + i)] == data[i]
    {
      hide Address, Slot, BitAnd, PowerOfTwo;
      var i: nat := 0;
      while i < |data|
        invariant i <= |data| && PowerOfTwo(buf.Length)
        invariant forall p: nat :: rpos <= p < wpos ==> buf[Slot(buf.Length, p)] == written[p]
        invariant forall j: nat :: j < i ==> buf[Slot(buf.Length, wpos + j)] == data[j]
      {
        AddressIsSlot(buf.Length, wpos, i);
        forall p: nat | rpos <= p < wpos + i ensures Slot(buf.Length, p) != Slot(buf.Length, wpos + i) {
          SlotsDiffer(buf.Length, p, wpos + i);
        }
        buf[Alias(buf.Length, Address(buf.Length, wpos, i))] := data[i];
        i := i + 1;
      }
    }

    /** All of the bytes, or none when they do not fit. */
    method Write(data: seq<int>) returns (ok: bool)
      requires Valid()
      modifies this, buf
      ensures Valid() && (ok <==> |old(Unread())| + |data| <= buf.Length)
      ensures Unread() == old(Unread()) + if ok then data else []
    {
      hide Address, Slot, BitAnd, PowerOfTwo;
      if buf.Length - (wpos - rpos) < |data| {
        return false;
      }
      CopyIn(data);
      ghost var before := written;
      wpos := wpos + |data|;
      written := written + data;
      forall p: nat | rpos <= p < wpos ensures buf[Slot(buf.Length, p)] == written[p] {
        if p >= |before| {
          assert |before| + (p - |before|) == p;
        }
      }
      ok := true;
    }

    /** Copy `n` bytes out from address `rpos & mask` on. */
    method CopyOut(n: nat) returns (got: seq<int>)
      requires Valid() && n <= wpos - rpos
      ensures got == written[rpos..rpos + n]
    {
      hide Address, Slot, BitAnd, PowerOfTwo;
      got := [];
      while |got| < n
        invariant |got| <= n && got == written[rpos..rpos + |got|]
      {
        AddressIsSlot(buf.Length, rpos, |got|);
        got := got + [buf[Alias(buf.Length, Address(buf.Length, rpos, |got|))]];
      }
    }

    /** At least `size` bytes must be there; up to `want` of those ready are taken. */
    method Read(size: nat, want: nat) returns (ok: bool, got: seq<int>)
      requires Valid()
      modifies `rpos
      ensures Valid() && (ok <==> |old(Unread())| > 0 && |old(Unread())| >= size)
      ensures old(Unread()) == got + Unread()
      ensures |got| == if !ok then 0 else if want < |old(Unread())| then want else |old(Unread())|
    {
      hide Address, Slot, BitAnd, PowerOfTwo;
      var ready := wpos - rpos;
      if ready == 0 || ready < size {
        return false, [];
      }
      got := CopyOut(if want < ready then want else ready);
      assert written[rpos..] == written[rpos..rpos + |got|] + written[rpos + |got|..];
      rpos := rpos + |got|;
      ok := true;
    }
  }
}
