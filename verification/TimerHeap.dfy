/**
 The timer cells, and the binary heap of cell numbers ordered by expiry: what `push_heap`, `pop_heap` and
 `make_heap` do with `is_after` as the comparison.
 */
module TimerHeap {
  import opened Options
  import opened TimerLog

  /** One word is either the free-list link or the pointer to the owning queue. */
  datatype Link = Next(next: Option<nat>) | Owner

  datatype Cell = Cell(link: Link, refCount: int, id: nat, expiry: int, interval: int, slot: Option<nat>)

  ghost predicate InBounds(h: seq<nat>, cells: seq<Cell>) {
    forall i :: 0 <= i < |h| ==> h[i] < |cells|
  }

  function Key(h: seq<nat>, cells: seq<Cell>, i: nat): int
    requires i < |h| && h[i] < |cells|
  {
    cells[h[i]].expiry
  }

  function Parent(i: nat): nat
    requires i > 0
  {
    (i - 1) / 2
  }

  /** Entry `i` is not before its parent. */
  ghost predicate Under(h: seq<nat>, cells: seq<Cell>, i: nat)
    requires 0 < i < |h| && InBounds(h, cells)
  {
    Key(h, cells, Parent(i)) <= Key(h, cells, i)
  }

  /** Every entry whose parent is at `from` or later is in order. */
  ghost predicate HeapFrom(h: seq<nat>, cells: seq<Cell>, from: nat) {
    InBounds(h, cells) && forall i :: 0 < i < |h| && Parent(i) >= from ==> Under(h, cells, i)
  }

  ghost predicate IsHeap(h: seq<nat>, cells: seq<Cell>) {
    HeapFrom(h, cells, 0)
  }

  /** The front of a heap has the least expiry. */
  lemma {:induction false} FrontIsEarliest(h: seq<nat>, cells: seq<Cell>, i: nat)
    requires IsHeap(h, cells) && i < |h|
    ensures Key(h, cells, 0) <= Key(h, cells, i)
  {
    if i > 0 {
      FrontIsEarliest(h, cells, Parent(i));
      assert Under(h, cells, i);
    }
  }

  lemma SwapKeepsEntries(h: seq<nat>, i: nat, j: nat)
    requires i < |h| && j < |h|
    ensures multiset(h[i := h[j]][j := h[i]]) == multiset(h)
  {
  }

  /** Everything but the entry at `hole` is in order, and its children are not before its parent. */
  ghost predicate HeapButUp(h: seq<nat>, cells: seq<Cell>, hole: nat) {
    && InBounds(h, cells) && hole < |h|
    && (forall i :: 0 < i < |h| && i != hole ==> Under(h, cells, i))
    && (forall i :: 0 < i < |h| && hole > 0 && Parent(i) == hole ==> Key(h, cells, Parent(hole)) <= Key(h, cells, i))
  }

  lemma SwapUp(h: seq<nat>, cells: seq<Cell>, hole: nat)
    requires HeapButUp(h, cells, hole) && hole > 0 && Key(h, cells, hole) < Key(h, cells, Parent(hole))
    ensures HeapButUp(h[hole := h[Parent(hole)]][Parent(hole) := h[hole]], cells, Parent(hole))
  {
    var p := Parent(hole);
    var h' := h[hole := h[p]][p := h[hole]];
    forall i | 0 < i < |h'| && i != p ensures Under(h', cells, i) {
      if i != hole {
        assert Under(h, cells, i);
      }
    }
    forall i | 0 < i < |h'| && p > 0 && Parent(i) == p ensures Key(h', cells, Parent(p)) <= Key(h', cells, i) {
      assert Under(h, cells, p);
      if i != hole {
        assert Under(h, cells, i);
      }
    }
  }

  /** `push_heap`: the last entry rises to its place. */
  method PushHeap(h: seq<nat>, cells: seq<Cell>) returns (r: seq<nat>)
    requires h != [] && InBounds(h, cells) && IsHeap(h[..|h| - 1], cells)
    ensures IsHeap(r, cells) && multiset(r) == multiset(h)
    ensures r != [] && (r[0] == h[0] || r[0] == h[|h| - 1])
  {
    r := h;
    var hole: nat := |h| - 1;
    forall i | 0 < i < |h| && i != hole ensures Under(h, cells, i) {
      assert Under(h[..|h| - 1], cells, i);
    }
    while hole > 0 && Key(r, cells, hole) < Key(r, cells, Parent(hole))
      invariant HeapButUp(r, cells, hole)
      invariant multiset(r) == multiset(h)
      invariant r[hole] == h[|h| - 1] && (hole > 0 ==> r[0] == h[0])
      decreases hole
    {
      var p := Parent(hole);
      SwapUp(r, cells, hole);
      SwapKeepsEntries(r, hole, p);
      r, hole := r[hole := r[p]][p := r[hole]], p;
    }
  }

  /** Every entry with a parent from `from` on is in order, but for the children of `hole`. */
  ghost predicate HeapButDown(h: seq<nat>, cells: seq<Cell>, from: nat, hole: nat) {
    && InBounds(h, cells) && from <= hole < |h|
    && (forall i :: 0 < i < |h| && Parent(i) >= from && Parent(i) != hole ==> Under(h, cells, i))
    && (forall i :: 0 < i < |h| && Parent(i) == hole && hole > 0 && Parent(hole) >= from ==>
          Key(h, cells, Parent(hole)) <= Key(h, cells, i))
  }

  /** The child of `hole` with the lesser expiry. */
  function LesserChild(h: seq<nat>, cells: seq<Cell>, hole: nat): (c: nat)
    requires 2 * hole + 1 < |h| && forall i :: 0 <= i < |h| ==> h[i] < |cells|
    ensures hole < c < |h| && Parent(c) == hole
    ensures forall i :: 0 < i < |h| && Parent(i) == hole ==> Key(h, cells, c) <= Key(h, cells, i)
  {
    var l := 2 * hole + 1;
    if l + 1 < |h| && Key(h, cells, l + 1) < Key(h, cells, l) then l + 1 else l
  }

  lemma SwapDown(h: seq<nat>, cells: seq<Cell>, from: nat, hole: nat, c: nat)
    requires HeapButDown(h, cells, from, hole) && hole < c < |h| && Parent(c) == hole
    requires forall i :: 0 < i < |h| && Parent(i) == hole ==> Key(h, cells, c) <= Key(h, cells, i)
    requires Key(h, cells, c) < Key(h, cells, hole)
    ensures HeapButDown(h[hole := h[c]][c := h[hole]], cells, from, c)
  {
    var h' := h[hole := h[c]][c := h[hole]];
    forall i | 0 < i < |h'| && Parent(i) >= from && Parent(i) != c ensures Under(h', cells, i) {
      if Parent(i) != hole && i != hole {
        assert Under(h, cells, i);
      }
    }
    forall i | 0 < i < |h'| && Parent(i) == c ensures Key(h', cells, Parent(c)) <= Key(h', cells, i) {
      assert Under(h, cells, i);
    }
  }

  /** The entry at `from` sinks to its place. */
  method SiftDown(h: seq<nat>, cells: seq<Cell>, from: nat) returns (r: seq<nat>)
    requires HeapFrom(h, cells, from + 1) && from < |h|
    ensures HeapFrom(r, cells, from) && multiset(r) == multiset(h)
  {
    r := h;
    var hole: nat := from;
    while 2 * hole + 1 < |r| && Key(r, cells, LesserChild(r, cells, hole)) < Key(r, cells, hole)
      invariant HeapButDown(r, cells, from, hole)
      invariant multiset(r) == multiset(h)
      decreases |r| - hole
    {
      var c := LesserChild(r, cells, hole);
      SwapDown(r, cells, from, hole, c);
      SwapKeepsEntries(r, hole, c);
      r, hole := r[hole := r[c]][c := r[hole]], c;
    }
    HoleFilled(r, cells, from, hole);
  }

  lemma HoleFilled(h: seq<nat>, cells: seq<Cell>, from: nat, hole: nat)
    requires HeapButDown(h, cells, from, hole)
    requires 2 * hole + 1 < |h| ==> Key(h, cells, LesserChild(h, cells, hole)) >= Key(h, cells, hole)
    ensures HeapFrom(h, cells, from)
  {
    forall i | 0 < i < |h| && Parent(i) >= from ensures Under(h, cells, i) {
      if Parent(i) == hole {
        assert 2 * hole + 1 <= i;
      }
    }
  }

  /** `pop_heap` and `pop_back`: the front goes, the last entry takes its place and sinks. */
  method PopHeap(h: seq<nat>, cells: seq<Cell>) returns (r: seq<nat>)
    requires h != [] && IsHeap(h, cells)
    ensures IsHeap(r, cells) && multiset(r) == multiset(h) - multiset{h[0]} && |r| == |h| - 1
  {
    var last := |h| - 1;
    var swapped := h[0 := h[last]][last := h[0]];
    r := swapped[..last];
    FrontRemoved(h, cells, r);
    if last > 0 {
      r := SiftDown(r, cells, 0);
    }
  }

  lemma FrontRemoved(h: seq<nat>, cells: seq<Cell>, r: seq<nat>)
    requires h != [] && IsHeap(h, cells) && r == h[0 := h[|h| - 1]][|h| - 1 := h[0]][..|h| - 1]
    ensures HeapFrom(r, cells, 1) && multiset(r) == multiset(h) - multiset{h[0]}
  {
    var last := |h| - 1;
    var swapped := h[0 := h[last]][last := h[0]];
    SwapKeepsEntries(h, 0, last);
    assert swapped == r + [h[0]];
    forall i | 0 < i < |r| && Parent(i) >= 1 ensures Under(r, cells, i) {
      assert Under(h, cells, i);
    }
  }

  /** `make_heap` */
  method MakeHeap(h: seq<nat>, cells: seq<Cell>) returns (r: seq<nat>)
    requires InBounds(h, cells)
    ensures IsHeap(r, cells) && multiset(r) == multiset(h)
  {
    r := h;
    var from: nat := |h| / 2;
    while from > 0
      invariant 0 <= from <= |h| == |r|
      invariant HeapFrom(r, cells, from) && multiset(r) == multiset(h)
      decreases from
    {
      from := from - 1;
      r := SiftDown(r, cells, from);
      SameEntriesSameLength(r, h);
    }
  }

  lemma SameEntriesSameLength(h: seq<nat>, h': seq<nat>)
    requires multiset(h) == multiset(h')
    ensures |h| == |h'|
  {
    assert |multiset(h)| == |h| && |multiset(h')| == |h'|;
  }
}
