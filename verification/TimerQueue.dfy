/**
 The timer queue and its pool of cells. Cells are numbered; a number stands for the pointer to a cell.
 The ghost fields record what cannot be seen in the source's own: who has the handles, which cell each timer
 id was given, and everything that happened to the timers.
 */
module TimerQueue {
  import opened Options
  import opened TimerLog
  import opened TimerHeap
  import opened TimerState
  import opened TimerUse

  /** Cells per slab: a page, less the allocator's overhead, in units of one handle. */
  const SLAB_SIZE: nat := (4096 - 16) / 8

  function InsertCount(ops: seq<Op>): nat {
    if ops == [] then 0 else InsertCount(ops[..|ops| - 1]) + if ops[|ops| - 1].Insert? then 1 else 0
  }

  /** How many timers the first `n` callbacks insert. */
  function InsertCounts(react: nat -> seq<Op>, n: nat): nat {
    if n == 0 then 0 else InsertCounts(react, n - 1) + InsertCount(react(n - 1))
  }

  /** The callback running is that of the timer in cell `cur`; only it has a handle held, and the heap has none. */
  ghost predicate RunsIn(h: Handles, cellOf: seq<nat>, log: seq<Event>, cur: nat) {
    && cur < |h.held| && h.held[cur] == 1 && (forall t :: 0 <= t < |h.held| && t != cur ==> h.held[t] == 0)
    && cur < |h.queued| && h.queued[cur] == 0
    && var firing := Replay(log).firing;
       firing.Some? && 1 <= firing.value <= |cellOf| && cellOf[firing.value - 1] == cur
  }

  class Queue {
    var cells: seq<Cell>
    var free: Option<nat>
    var heap: seq<nat>
    var cancelled: int
    var maxId: nat
    /** Who has the handles; the callers' own are theirs to copy and drop. */
    var handles: Handles
    /** The free list. */
    ghost var list: seq<nat>
    ghost var cellOf: seq<nat>
    ghost var log: seq<Event>
    /** Cancellations counted for timers that were not in the heap. */
    ghost var miscounts: nat
    /** The log at the last collection. */
    ghost var collected: seq<Event>

    ghost predicate Shape()
      reads `cells, `free, `heap, `list, `handles
    {
      Chain(cells, free, list) && Owned(cells, handles) && Tallied(heap, handles.queued)
    }

    ghost predicate Logged()
      reads `cells, `handles, `cellOf, `log, `maxId
    {
      LoggedAs(cells, handles.queued, cellOf, log) && maxId == |cellOf|
    }

    ghost predicate Ordered()
      reads `cells, `heap
    {
      IsHeap(heap, cells)
    }

    /**
     The cancellation count, and `slack` more, is the number of stale heap entries and of miscounts. Miscounted are
     the timers cancelled by their own callbacks since the last collection.
     */
    ghost predicate Counted(slack: int)
      reads `cells, `handles, `cancelled, `log, `miscounts, `collected
    {
      && |handles.queued| == |cells|
      && cancelled + slack == |Stale(cells, handles.queued)| + miscounts
      && collected <= log && SelfCancels(log) == SelfCancels(collected) + miscounts
    }

    /** A timer whose callback runs is not in the heap. */
    ghost predicate FiringOut()
      reads `cells, `handles, `log
    {
      |handles.queued| == |cells| && Outside(cells, handles.queued, Replay(log).firing)
    }

    ghost predicate Valid()
      reads this
    {
      Shape() && Logged() && Ordered() && Counted(0) && FiringOut()
    }

    ghost predicate FrontPending()
      reads `cells, `heap
    {
      heap != [] ==> heap[0] < |cells| && cells[heap[0]].slot.Some?
    }

    /** No more than half of the heap's entries are counted as cancelled. */
    ghost predicate Tidy()
      reads `heap, `cancelled
    {
      cancelled <= |heap| / 2
    }

    /** No callback is running, and no code holds a handle. */
    ghost predicate AtRest()
      reads `handles, `log
    {
      NoneHeld(handles.held) && Replay(log).firing.None?
    }

    /** What is true between any two calls. */
    ghost predicate Ready()
      reads this
    {
      Valid() && AtRest() && FrontPending() && Tidy()
    }

    /** What users see and have. */
    ghost function Seen(): View
      reads `log, `cellOf, `handles
    {
      View(log, cellOf, handles.users)
    }

    constructor ()
      ensures Ready() && log == [] && collected == []
      ensures heap == [] && cancelled == 0 && miscounts == 0
    {
      cells, free, heap, cancelled, maxId := [], None, [], 0, 0;
      list, handles, cellOf, log, miscounts, collected := [], Handles([], [], []), [], [], 0, [];
      new;
      assert Stale(cells, handles.queued) == {};
    }

    // -------------------------------------------------------------- handles

    /** `intrusive_ptr_add_ref`: the new handle is in the hands of the running code. */
    method AddRef(t: nat)
      requires Shape() && t < |cells| && cells[t].link.Owner?
      modifies `cells, `handles
      ensures Shape() && handles == old(handles).(held := Inc(old(handles).held, t))
      ensures cells == old(cells)[t := old(cells)[t].(refCount := old(cells)[t].refCount + 1)]
    {
      hide Chain, Tallied;
      ghost var c, h := cells, handles;
      assert CellOk(c[t], h.users[t], h.queued[t], h.held[t]);
      cells := cells[t := cells[t].(refCount := cells[t].refCount + 1)];
      handles := handles.(held := Inc(handles.held, t));
      CellStep(c, h, free, list, t, cells, handles);
    }

    /** The handle about to go is the last but one of a pending timer. */
    ghost predicate LastButOne(t: nat)
      reads `cells
    {
      t < |cells| && cells[t].refCount == 2 && cells[t].slot.Some?
    }

    /** Running code has a handle to `t`. */
    ghost predicate HeldHere(t: nat)
      reads `handles
    {
      t < |handles.held| && handles.held[t] > 0
    }

    lemma HeldCell(t: nat)
      requires Shape() && HeldHere(t)
      ensures t < |cells| && cells[t].link.Owner? && cells[t].refCount >= 1
      ensures cells[t].slot.Some? ==> cells[t].refCount >= 2
      ensures |handles.users| == |handles.queued| == |handles.held| == |cells|
      ensures CellOk(cells[t], handles.users[t], handles.queued[t], handles.held[t])
    {
      assert CellOk(cells[t], handles.users[t], handles.queued[t], handles.held[t]);
    }

    /**
     `intrusive_ptr_release` of a handle held by the running code. The last but one handle of a pending timer
     must be the queue's own, so the timer is cancelled; a cell without handles returns to the pool.
     */
    method Release(t: nat)
      requires Shape() && Logged() && HeldHere(t)
      requires LastButOne(t) ==> Ordered() && Counted(0) && FiringOut()
      modifies `cells, `free, `list, `handles, `heap, `cancelled, `miscounts, `collected, `log
      ensures Shape() && Logged()
      ensures handles.users == old(handles).users && handles.held == Dec(old(handles).held, t)
      ensures |old(handles).queued| == |old(handles).held| == |old(cells)| && Steady(old(cells), old(handles), cells, handles)
      ensures !old(LastButOne(t)) ==> SameTimers(old(cells), cells) && handles.queued == old(handles).queued
      ensures !old(LastButOne(t)) ==>
        heap == old(heap) && cancelled == old(cancelled) && miscounts == old(miscounts) && log == old(log)
      ensures !old(LastButOne(t)) ==> collected == old(collected)
      ensures collected == old(collected) || collected == log
      ensures !old(LastButOne(t)) && t < |old(cells)| && old(cells)[t].refCount == 1 ==>
        free == Some(t) && list == [t] + old(list)
      ensures !old(LastButOne(t)) && t < |old(cells)| && old(cells)[t].refCount >= 2 ==>
        cells == old(cells)[t := old(cells)[t].(refCount := old(cells)[t].refCount - 1)] && free == old(free) && list == old(list)
      ensures old(LastButOne(t)) ==> Valid() && FrontPending() && Tidy() && log == old(log) + [Cancelled(old(cells)[t].id)]
      ensures old(LastButOne(t)) ==> miscounts <= old(miscounts) + if old(handles).queued[t] > 0 then 0 else 1
      decreases if LastButOne(t) then 7 else 0
    {
      hide Chain, Owned, Tallied, LoggedAs, Replay, IsHeap, Stale, SelfCancels, SameTimers, Steady;
      HeldCell(t);
      ghost var c := cells;
      cells := cells[t := cells[t].(refCount := cells[t].refCount - 1)];
      if cells[t].refCount == 1 {
        if cells[t].slot.Some? {
          cells := cells[t := cells[t].(slot := None)];
          SteadyIfReset(c, handles, t, cells, handles.(held := Dec(handles.held, t)));
          Disarm(t, c, Dec(handles.held, t));
          ghost var mid, h := cells, handles;
          CancelQueue();
          SteadyThen(c, old(handles), mid, h, cells, handles);
        } else {
          Dropped(t, c);
        }
      } else if cells[t].refCount == 0 {
        Dealloc(t, c);
      } else {
        Dropped(t, c);
      }
    }

    /** What held before the step that made `cells` of `c`. */
    ghost predicate Was(c: seq<Cell>)
      reads `free, `heap, `list, `handles, `cellOf, `log, `maxId
    {
      && Chain(c, free, list) && Owned(c, handles) && Tallied(heap, handles.queued)
      && LoggedAs(c, handles.queued, cellOf, log) && maxId == |cellOf|
    }

    /** A handle of the running code is gone, and others are left. */
    method Dropped(t: nat, ghost c: seq<Cell>)
      requires Was(c) && HeldHere(t) && t < |c| && cells == c[t := c[t].(refCount := c[t].refCount - 1)]
      requires c[t].refCount >= 2 && (c[t].slot.Some? ==> c[t].refCount > 2)
      modifies `handles
      ensures Shape() && Logged() && handles == old(handles).(held := Dec(old(handles).held, t))
      ensures |old(handles).queued| == |old(handles).held| == |c| && Steady(c, old(handles), cells, handles)
      ensures SameTimers(c, cells)
    {
      hide Chain, Tallied, LoggedAs, Stale, IsHeap;
      ghost var h := handles;
      assert CellOk(c[t], h.users[t], h.queued[t], h.held[t]);
      handles := handles.(held := Dec(handles.held, t));
      CellStep(c, h, free, list, t, cells, handles);
      SameTimersSameFacts(c, cells, heap, handles.queued, cellOf, log);
      SteadyIfSame(c, h, cells, handles);
    }

    /** The slot of `t` has just been reset: log that, and note when the heap has no entry for it. */
    method Disarm(t: nat, ghost c: seq<Cell>, held: seq<nat>)
      requires Was(c) && Reset(c, t, cells) && IsHeap(heap, c)
      requires cancelled == |Stale(c, handles.queued)| + miscounts
      requires collected <= log && SelfCancels(log) == SelfCancels(collected) + miscounts
      requires |handles.queued| == |c| && Outside(c, handles.queued, Replay(log).firing)
      requires |held| == |c| && forall u :: 0 <= u < |c| && u != t ==> held[u] == handles.held[u]
      requires CellOk(cells[t], handles.users[t], handles.queued[t], held[t])
      modifies `handles, `log, `miscounts
      ensures Shape() && Logged() && Ordered() && Counted(1) && FiringOut() && handles == old(handles).(held := held)
      ensures log == old(log) + [Cancelled(c[t].id)]
      ensures miscounts == old(miscounts) + if old(handles).queued[t] > 0 then 0 else 1
    {
      hide Chain, Tallied, Replay, Stale, IsHeap, Legal, SelfCancels, ArmedBy, Placed;
      ghost var h := handles;
      handles := handles.(held := held);
      CellStep(c, h, free, list, t, cells, handles);
      CancelLogged(c, cellOf, heap, handles.queued, log, t, cells);
      log := log + [Cancelled(c[t].id)];
      miscounts := miscounts + if handles.queued[t] > 0 then 0 else 1;
    }

    /** `TimerPool::dealloc`: a cell whose last handle is gone goes on the free list. */
    method Dealloc(t: nat, ghost c: seq<Cell>)
      requires Was(c) && HeldHere(t) && t < |c| && cells == c[t := c[t].(refCount := 0)] && c[t].refCount == 1
      modifies `cells, `free, `list, `handles
      ensures Shape() && Logged() && handles == old(handles).(held := Dec(old(handles).held, t))
      ensures free == Some(t) && list == [t] + old(list)
      ensures |old(handles).queued| == |old(handles).held| == |c| && Steady(c, old(handles), cells, handles)
      ensures SameTimers(c, cells)
    {
      hide Chain, Tallied, LoggedAs, Stale, IsHeap;
      ghost var h := handles;
      cells := cells[t := cells[t].(link := Next(free))];
      assert cells == c[t := c[t].(refCount := 0, link := Next(free))];
      CellFreed(c, h, free, list, t, cells);
      free := Some(t);
      list := [t] + list;
      handles := handles.(held := Dec(handles.held, t));
      SameTimersSameFacts(c, cells, heap, handles.queued, cellOf, log);
      SteadyIfSame(c, h, cells, handles);
    }

    // -------------------------------------------------------------- the heap

    lemma Front()
      requires Shape() && heap != []
      ensures |handles.users| == |handles.queued| == |handles.held| == |cells|
      ensures heap[0] < |cells| && handles.queued[heap[0]] == 1 && cells[heap[0]].link.Owner? && cells[heap[0]].refCount >= 1
      ensures cells[heap[0]].slot.Some? ==> cells[heap[0]].refCount >= 2
    {
      TalliedEntry(heap, handles.queued, 0);
      assert CellOk(cells[heap[0]], handles.users[heap[0]], handles.queued[heap[0]], handles.held[heap[0]]);
    }

    /** The front entry's handle, taken out of the heap. */
    method Pop() returns (t: nat)
      requires Shape() && Logged() && Ordered() && heap != []
      requires heap[0] < |cells| && cells[heap[0]].slot.Some? ==> Replay(log).firing == Some(cells[heap[0]].id)
      modifies `cells, `free, `list, `handles, `heap, `cancelled, `miscounts, `collected, `log
      ensures Shape() && Logged() && Ordered() && |heap| == |old(heap)| - 1
      ensures t == old(heap[0]) && t < |cells| && cells == old(cells) && old(handles).queued[t] == 1
      ensures handles == old(handles).(queued := old(handles).queued[t := 0], held := Inc(old(handles).held, t))
      ensures cancelled == old(cancelled) && miscounts == old(miscounts) && log == old(log) && collected == old(collected)
      ensures free == old(free) && list == old(list)
      decreases 2
    {
      hide Shape, Counted, SameTimers, Steady, LoggedAs, Stale, IsHeap, Replay;
      Front();
      ghost var c := cells;
      t := heap[0];
      AddRef(t);
      Counting(c, t, cells);
      PopFront(c);
      ghost var up := cells;
      Release(t);
      SameTimersSameFacts(up, cells, heap, handles.queued, cellOf, log);
    }

    lemma Counting(c: seq<Cell>, t: nat, c': seq<Cell>)
      requires t < |c| && c' == c[t := c[t].(refCount := c[t].refCount + 1)]
      ensures SameTimers(c, c') && c'[t := c'[t].(refCount := c'[t].refCount - 1)] == c
    {
    }

    /** `pop_heap` and `pop_back`; the popped handle is yet to be released. */
    method PopFront(ghost c: seq<Cell>)
      requires Shape() && LoggedAs(c, handles.queued, cellOf, log) && maxId == |cellOf| && IsHeap(heap, c) && SameTimers(c, cells)
      requires heap != [] && heap[0] < |cells| && |handles.held| == |handles.queued| == |cells| && handles.queued[heap[0]] == 1
      requires cells[heap[0]].slot.Some? ==> Replay(log).firing == Some(cells[heap[0]].id)
      modifies `heap, `handles
      ensures Shape() && Logged() && Ordered() && |heap| == |old(heap)| - 1
      ensures var t := old(heap)[0];
              handles == old(handles).(queued := old(handles).queued[t := 0], held := Inc(old(handles).held, t))
    {
      hide Chain, Replay, IsHeap, LoggedAs;
      ghost var h := heap;
      var t := heap[0];
      SameTimersSameFacts(c, cells, heap, handles.queued, cellOf, log);
      heap := PopHeap(heap, cells);
      TakeEntry(h, t);
    }

    /** One heap entry of `t` has just become a handle of the running code. */
    method TakeEntry(ghost h: seq<nat>, t: nat)
      requires Chain(cells, free, list) && Owned(cells, handles) && Tallied(h, handles.queued) && Logged()
      requires t < |cells| && handles.queued[t] == 1 && multiset(heap) == multiset(h) - multiset{t}
      requires cells[t].slot.Some? ==> Replay(log).firing == Some(cells[t].id)
      modifies `handles
      ensures Shape() && Logged()
      ensures handles == old(handles).(queued := old(handles).queued[t := 0], held := Inc(old(handles).held, t))
    {
      hide Chain, Tallied, Replay, Legal, ArmedBy;
      var h0 := handles;
      assert CellOk(cells[t], h0.users[t], h0.queued[t], h0.held[t]);
      handles := h0.(queued := h0.queued[t := 0], held := Inc(h0.held, t));
      EntryTaken(h, h0.queued, t, heap);
      CellStep(cells, h0, free, list, t, cells, handles);
    }

    /** The front entry is stale: drop it, and count one cancelled timer less. */
    method PopStale()
      requires Valid() && heap != [] && !FrontPending()
      modifies `cells, `free, `list, `handles, `heap, `cancelled, `miscounts, `collected, `log
      ensures Valid() && |heap| == |old(heap)| - 1 && handles.users == old(handles).users && handles.held == old(handles).held
      ensures cancelled == old(cancelled) - 1 >= 0 && miscounts == old(miscounts) && log == old(log)
      ensures collected == old(collected)
      ensures Steady(old(cells), old(handles), cells, handles)
      decreases 5
    {
      hide Chain, Owned, Tallied, LoggedAs, Stale, IsHeap, Replay, SelfCancels, SameTimers, Steady;
      Front();
      var t := Pop();
      StaleWithout(old(cells), old(handles).queued, t);
      ghost var h := handles;
      Release(t);
      SameTimersSameFacts(old(cells), cells, heap, handles.queued, cellOf, log);
      cancelled := cancelled - 1;
      assert handles.held == old(handles).held;
      SteadyIfSame(old(cells), old(handles), cells, handles);
    }

    // -------------------------------------------------------------- garbage collection

    /** `remove_if` and `erase`: the entries of timers no longer pending are dropped. */
    method RemoveStale()
      requires Shape() && Logged()
      modifies `cells, `free, `list, `handles, `heap, `cancelled, `miscounts, `collected, `log
      ensures Shape() && Logged() && SameTimers(old(cells), cells)
      ensures handles.users == old(handles).users && handles.held == old(handles).held && log == old(log)
      ensures |handles.queued| == |old(handles).queued|
      ensures forall t :: 0 <= t < |handles.queued| ==> handles.queued[t] <= old(handles).queued[t]
      ensures forall k :: 0 <= k < |heap| ==> heap[k] < |cells| && cells[heap[k]].slot.Some?
      decreases 3
    {
      hide Chain, Owned, LoggedAs, Legal, Replay, SelfCancels, Stale, IsHeap;
      var i := 0;
      while i < |heap|
        invariant 0 <= i <= |heap|
        invariant Shape() && Logged() && SameTimers(old(cells), cells)
        invariant handles.users == old(handles).users && handles.held == old(handles).held && log == old(log)
        invariant |handles.queued| == |old(handles).queued|
        invariant forall t :: 0 <= t < |handles.queued| ==> handles.queued[t] <= old(handles).queued[t]
        invariant forall k :: 0 <= k < i ==> heap[k] < |cells| && cells[heap[k]].slot.Some?
        decreases |heap| - i
      {
        HeapEntry(i);
        if cells[heap[i]].slot.Some? {
          i := i + 1;
        } else {
          DropEntry(i);
        }
      }
    }

    method DropEntry(i: nat)
      requires Shape() && Logged() && i < |heap| && heap[i] < |cells| && cells[heap[i]].slot.None?
      modifies `cells, `free, `list, `handles, `heap, `cancelled, `miscounts, `collected, `log
      ensures Shape() && Logged() && SameTimers(old(cells), cells)
      ensures handles.users == old(handles).users && handles.held == old(handles).held && log == old(log)
      ensures old(heap)[i] < |old(handles).queued| && handles.queued == old(handles).queued[old(heap)[i] := 0]
      ensures heap == old(heap)[..i] + old(heap)[i + 1..]
      decreases 2
    {
      hide Chain, Owned, Tallied, LoggedAs, Legal, Replay, SelfCancels, Stale, IsHeap, SameTimers, Steady;
      HeapEntry(i);
      ghost var h := heap;
      var t := heap[i];
      heap := heap[..i] + heap[i + 1..];
      assert h == h[..i] + [t] + h[i + 1..];
      TakeEntry(h, t);
      Release(t);
      assert handles.held == old(handles).held;
    }

    lemma HeapEntry(i: nat)
      requires Shape() && i < |heap|
      ensures |handles.users| == |handles.queued| == |handles.held| == |cells|
      ensures heap[i] < |cells| && handles.queued[heap[i]] == 1
    {
      TalliedEntry(heap, handles.queued, i);
      assert CellOk(cells[heap[i]], handles.users[heap[i]], handles.queued[heap[i]], handles.held[heap[i]]);
    }

    /** Collect the entries of cancelled timers when they are counted as more than half. */
    method Gc()
      requires Valid()
      modifies `cells, `free, `list, `handles, `heap, `cancelled, `miscounts, `collected, `log
      ensures Valid() && Tidy() && handles.users == old(handles).users && handles.held == old(handles).held && log == old(log)
      ensures miscounts <= old(miscounts) && Steady(old(cells), old(handles), cells, handles)
      ensures old(Tidy()) ==>
        cells == old(cells) && heap == old(heap) && cancelled == old(cancelled) && miscounts == old(miscounts)
      ensures !old(Tidy()) ==> miscounts == 0 && cancelled == 0
      ensures collected == if old(Tidy()) then old(collected) else log
      ensures old(FrontPending()) ==> FrontPending()
      decreases 5
    {
      if cancelled > |heap| / 2 {
        Collect();
      } else {
        SteadyIfSame(cells, handles, cells, handles);
      }
    }

    method Collect()
      requires Valid()
      modifies `cells, `free, `list, `handles, `heap, `cancelled, `miscounts, `collected, `log
      ensures Valid() && handles.users == old(handles).users && handles.held == old(handles).held && log == old(log)
      ensures miscounts == 0 && cancelled == 0 && collected == log && FrontPending()
      ensures Steady(old(cells), old(handles), cells, handles)
      decreases 4
    {
      hide Chain, Owned, LoggedAs, Legal, Replay, SelfCancels, IsHeap, Outside, Steady, SameTimers;
      RemoveStale();
      OwnedLengths();
      OutsideStays(old(cells), old(handles).queued, Replay(log).firing, cells, handles.queued);
      NothingStale(cells, heap, handles.queued);
      ghost var h := heap;
      heap := MakeHeap(heap, cells);
      EntriesMoved(h, handles.queued, heap);
      cancelled := 0;
      miscounts, collected := 0, log;
      SteadyIfSame(old(cells), old(handles), cells, handles);
      NothingStaleFront();
    }

    lemma OwnedLengths()
      requires Shape()
      ensures |handles.users| == |handles.queued| == |handles.held| == |cells|
    {
    }

    lemma NothingStaleFront()
      requires Tallied(heap, handles.queued) && |handles.queued| == |cells| && Stale(cells, handles.queued) == {}
      ensures FrontPending()
    {
      if heap != [] {
        TalliedEntry(heap, handles.queued, 0);
        assert heap[0] !in Stale(cells, handles.queued);
      }
    }

    lemma Unmoved()
      requires Shape()
      ensures Steady(cells, handles, cells, handles)
    {
      SteadyIfSame(cells, handles, cells, handles);
    }

    lemma FrontCell()
      requires Shape()
      ensures heap != [] ==> heap[0] < |cells|
    {
    }

    /** `TimerQueue::cancel`: one more timer was cancelled; keep a pending one at the front. */
    method CancelQueue()
      requires Shape() && Logged() && Ordered() && Counted(1) && FiringOut()
      modifies `cells, `free, `list, `handles, `heap, `cancelled, `miscounts, `collected, `log
      ensures Valid() && FrontPending() && Tidy()
      ensures handles.users == old(handles).users && handles.held == old(handles).held && log == old(log)
      ensures miscounts <= old(miscounts) && Steady(old(cells), old(handles), cells, handles)
      ensures collected == old(collected) || collected == log
      ensures old(FrontPending() && cancelled + 1 <= |heap| / 2) ==>
        cells == old(cells) && heap == old(heap) && cancelled == old(cancelled) + 1 && miscounts == old(miscounts)
      decreases 6
    {
      hide Shape, Logged, Ordered, Stale, SelfCancels, Steady;
      Unmoved();
      cancelled := cancelled + 1;
      FrontCell();
      while heap != [] && cells[heap[0]].slot.None?
        invariant Valid() && (heap != [] ==> heap[0] < |cells|)
        invariant handles.users == old(handles).users && handles.held == old(handles).held
        invariant log == old(log) && miscounts == old(miscounts) && collected == old(collected)
        invariant Steady(old(cells), old(handles), cells, handles)
        invariant old(FrontPending()) ==> cells == old(cells) && heap == old(heap) && cancelled == old(cancelled) + 1
        decreases |heap|
      {
        ghost var c, h := cells, handles;
        PopStale();
        SteadyThen(old(cells), old(handles), c, h, cells, handles);
        FrontCell();
      }
      ghost var c, h := cells, handles;
      Gc();
      SteadyThen(old(cells), old(handles), c, h, cells, handles);
    }

    // -------------------------------------------------------------- new timers

    /** `TimerPool::alloc`: an unused cell, from the free list or else from a new slab. */
    method PoolAlloc() returns (t: nat)
      requires Shape()
      modifies `cells, `free, `list, `handles
      ensures SetAside(old(cells), old(handles), t, cells, handles)
      ensures Chain(cells[t := cells[t].(link := Owner)], free, list)
      ensures old(free).Some? ==> t == old(free).value && |cells| == |old(cells)| && old(list) == [t] + list
      ensures old(free).None? ==> t == |old(cells)| && |cells| == t + SLAB_SIZE && |list| == SLAB_SIZE - 1
    {
      if free.Some? {
        t := free.value;
        FreeCell();
        ghost var c, h := cells, handles;
        free := cells[t].link.next;
        ChainShrunk(c, Some(t), list, c[t := c[t].(link := Owner)]);
        list := list[1..];
        assert forall u :: 0 <= u < |c| && u != t ==> SameCell(c, h, u, cells, handles);
      } else {
        t := NewSlab();
      }
    }

    /** A new slab: its first cell is handed out, the others go on the free list one by one. */
    method NewSlab() returns (t: nat)
      requires Shape() && free.None?
      modifies `cells, `free, `list, `handles
      ensures SetAside(old(cells), old(handles), t, cells, handles)
      ensures Chain(cells[t := cells[t].(link := Owner)], free, list)
      ensures t == |old(cells)| && |cells| == t + SLAB_SIZE && |list| == |old(list)| + SLAB_SIZE - 1
    {
      hide Chain, Linked, Tallied;
      ghost var c := cells;
      var h := handles;
      t := |cells|;
      ChainExtended(cells, free, list, SLAB_SIZE);
      cells := cells + seq(SLAB_SIZE, _ => Blank());
      var wider := Handles(h.users + Zeros(SLAB_SIZE), h.queued + Zeros(SLAB_SIZE), h.held + Zeros(SLAB_SIZE));
      handles := wider;
      var i := 1;
      while i < SLAB_SIZE
        invariant 1 <= i <= SLAB_SIZE && |cells| == t + SLAB_SIZE
        invariant Chain(cells, free, list) && handles == wider && |list| == |old(list)| + i - 1
        invariant forall u :: 0 <= u < t ==> cells[u] == c[u]
        invariant cells[t] == Blank()
        invariant forall u :: t < u < t + i ==> cells[u].link.Next? && cells[u].slot.None? && cells[u].refCount == 0
        invariant forall u :: t + i <= u < |cells| ==> cells[u] == Blank()
        decreases SLAB_SIZE - i
      {
        ghost var before := cells;
        cells := cells[t + i := cells[t + i].(link := Next(free))];
        ChainGrown(before, free, list, t + i, cells);
        free := Some(t + i);
        list := [t + i] + list;
        i := i + 1;
      }
      SlabSetAside(c, h, t, cells, handles);
      assert cells[t := cells[t].(link := Owner)] == cells;
    }

    lemma SlabSetAside(c: seq<Cell>, h: Handles, t: nat, c': seq<Cell>, h': Handles)
      requires |c| == |h.users| == |h.queued| == |h.held| == t && |c'| == t + SLAB_SIZE
      requires h' == Handles(h.users + Zeros(SLAB_SIZE), h.queued + Zeros(SLAB_SIZE), h.held + Zeros(SLAB_SIZE))
      requires forall u :: 0 <= u < t ==> c'[u] == c[u]
      requires forall u :: t < u < |c'| ==> c'[u].link.Next? && c'[u].slot.None? && c'[u].refCount == 0
      ensures SetAside(c, h, t, c', h')
    {
      forall u | 0 <= u < |c| ensures SameCell(c, h, u, c', h') {
      }
      forall u | t < u < |c'| ensures Unused(c', h', u) {
      }
    }

    lemma FreeCell()
      requires Shape() && free.Some?
      ensures list != [] && list[0] == free.value < |cells| && cells[free.value].link.Next?
      ensures |handles.users| == |handles.queued| == |handles.held| == |cells|
      ensures var t := free.value; cells[t].slot.None? && handles.users[t] == 0 && handles.queued[t] == 0 && handles.held[t] == 0
    {
      assert Linked(cells, list, 0);
      var t := free.value;
      assert CellOk(cells[t], handles.users[t], handles.queued[t], handles.held[t]);
    }

    /** The running code's handles are as they were; new cells have none. */
    ghost predicate SameHeld(held: seq<nat>)
      reads `handles
    {
      && |held| <= |handles.held| && (forall u :: 0 <= u < |held| ==> handles.held[u] == held[u])
      && (forall u :: |held| <= u < |handles.held| ==> handles.held[u] == 0)
    }

    /** `TimerQueue::insert`: the timer gets the next id, and its user the handle returned. */
    method Insert(expiry: int, interval: int, handler: nat) returns (t: nat)
      requires Valid()
      modifies this
      ensures Valid() && SameHeld(old(handles).held) && Steady(old(cells), old(handles), cells, handles)
      ensures log == old(log) + [Inserted(Entry(expiry, interval, handler))] && maxId == old(maxId) + 1
      ensures t < |handles.users| == |cells| && HeldIn(cells[t], maxId) && Given(old(Seen()), t, Seen())
      ensures |heap| == |old(heap)| + 1
      ensures |cells| == |old(cells)| + if old(free).Some? then 0 else SLAB_SIZE
      ensures cancelled == old(cancelled) && miscounts == old(miscounts) && collected == old(collected)
      ensures old(FrontPending()) ==> FrontPending()
      ensures old(Ready()) ==> Ready()
    {
      hide Chain, Owned, Tallied, LoggedAs, SetAside, IsHeap, Stale, SelfCancels, Replay, Steady, Outside, Given;
      ghost var c, h, e := cells, handles, Entry(expiry, interval, handler);
      t := PoolAlloc();
      ghost var c1, h1 := cells, handles;
      AsideRoom(c, h, t, c1, h1);
      maxId := maxId + 1;
      cells := cells[t := Cell(Owner, 1, maxId, expiry, interval, Some(handler))];
      // The heap's handle is a second one.
      cells := cells[t := cells[t].(refCount := cells[t].refCount + 1)];
      assert cells == c1[t := NewCell(maxId, e)];
      InsertHeap(c, h, heap, t, c1, h1, maxId, e);
      InsertStale(c, h, t, c1, h1, maxId, e);
      InsertLogged(c, h, cellOf, log, t, c1, h1, e);
      InsertOwned(c, h, t, c1, h1, maxId, e);
      InsertOut(c, h, t, c1, h1, maxId, e);
      InsertGiven(c, h, t, c1, h1);
      InsertSteady(c, h, t, c1, h1, maxId, e);
      handles := NewHandles(handles, t);
      log := log + [Inserted(e)];
      cellOf := cellOf + [t];
      ReplayNext(old(log), Inserted(e));
      NewLinks(c1, t, maxId, e);
      Push(t, h1.queued);
    }

    lemma InsertOut(c: seq<Cell>, h: Handles, t: nat, c1: seq<Cell>, h1: Handles, id: nat, e: Entry)
      requires SetAside(c, h, t, c1, h1) && LoggedAs(c, h.queued, cellOf, log) && id == |cellOf| + 1
      requires Outside(c, h.queued, Replay(log).firing)
      ensures Outside(c1[t := NewCell(id, e)], NewHandles(h1, t).queued, Replay(log + [Inserted(e)]).firing)
    {
      hide Legal, Replay, SetAside, Outside;
      InsertOutside(c, h, log, t, c1, h1, id, e);
    }

    /** For a user, the new timer's cell is one that nobody used. */
    lemma InsertGiven(c: seq<Cell>, h: Handles, t: nat, c1: seq<Cell>, h1: Handles)
      requires SetAside(c, h, t, c1, h1) && LoggedAs(c, h.queued, cellOf, log)
      ensures forall l: seq<Event> :: Given(View(log, cellOf, h.users), t, View(l, cellOf + [t], NewHandles(h1, t).users))
    {
      hide Replay;
      forall u | 0 <= u < |c| && u != t ensures h1.users[u] == h.users[u] {
        assert SameCell(c, h, u, c1, h1);
      }
      forall u | |c| <= u < |c1| && u != t ensures h1.users[u] == 0 {
        assert Unused(c1, h1, u);
      }
      forall id: nat ensures !Occupies(View(log, cellOf, h.users), t, id) {
        assert IsArmed(Replay(log), id) ==> HeldIn(c[cellOf[id - 1]], id);
      }
    }

    lemma NewLinks(c1: seq<Cell>, t: nat, id: nat, e: Entry)
      requires t < |c1| && Chain(c1[t := c1[t].(link := Owner)], free, list)
      ensures Chain(c1[t := NewCell(id, e)], free, list)
    {
      SameLinksSameChain(c1[t := c1[t].(link := Owner)], c1[t := NewCell(id, e)], free, list);
    }

    /** `push_back` and `push_heap`. */
    method Push(t: nat, ghost queued: seq<nat>)
      requires IsHeap(heap, cells) && Tallied(heap, queued) && t < |queued| == |cells| && queued[t] == 0
      modifies `heap
      ensures IsHeap(heap, cells) && Tallied(heap, queued[t := 1]) && |heap| == |old(heap)| + 1
      ensures heap[0] == t || (old(heap) != [] && heap[0] == old(heap)[0])
    {
      ghost var h := heap;
      heap := heap + [t];
      assert heap[..|heap| - 1] == h;
      ghost var pushed := heap;
      heap := PushHeap(heap, cells);
      EntryPut(h, queued, t, pushed);
      EntriesMoved(pushed, queued[t := 1], heap);
    }

    // -------------------------------------------------------------- what users do with a handle

    /** `Timer::cancel`, through a user's handle or the one a callback is given. */
    method CancelTimer(t: nat)
      requires Valid() && t < |cells| && cells[t].link.Owner?
      modifies this
      ensures Valid() && handles.users == old(handles).users && handles.held == old(handles).held
      ensures cellOf == old(cellOf) && Steady(old(cells), old(handles), cells, handles)
      ensures old(cells)[t].slot.Some? ==>
        log == old(log) + [Cancelled(old(cells)[t].id)] && FrontPending() && Tidy()
        && miscounts <= old(miscounts) + if old(handles).queued[t] > 0 then 0 else 1
      ensures old(cells)[t].slot.None? ==>
        log == old(log) && cells == old(cells) && heap == old(heap) && cancelled == old(cancelled) && miscounts == old(miscounts)
      ensures collected == old(collected) || (collected == log && log != old(log))
      ensures old(Ready()) ==> Ready()
      ensures old(cells)[t].slot.Some? && old(JustCounts(t)) ==>
        heap == old(heap) && |cells| == |old(cells)| && cells[t].slot.None? && cancelled == old(cancelled) + 1
        && miscounts == old(miscounts) + if old(handles).queued[t] > 0 then 0 else 1
    {
      hide Chain, Owned, Tallied, LoggedAs, IsHeap, Stale, SelfCancels, Replay, Steady;
      UsedCell(t);
      ghost var c, h := cells, handles;
      if cells[t].slot.Some? {
        cells := cells[t := cells[t].(slot := None)];
        SteadyIfReset(c, h, t, cells, h);
        Disarm(t, c, handles.held);
        ReplayNext(old(log), Cancelled(c[t].id));
        ghost var mid := cells;
        CancelQueue();
        SteadyThen(c, h, mid, h, cells, handles);
      } else {
        Unmoved();
      }
    }

    lemma UsedCell(t: nat)
      requires Shape() && t < |cells| && cells[t].link.Owner?
      ensures |handles.users| == |handles.queued| == |handles.held| == |cells|
      ensures CellOk(cells[t], handles.users[t], handles.queued[t], handles.held[t])
      ensures heap != [] ==> heap[0] < |cells|
    {
      assert CellOk(cells[t], handles.users[t], handles.queued[t], handles.held[t]);
    }

    /** A user, or the running callback, makes another handle for the user. */
    method CopyHandle(t: nat)
      requires Valid() && t < |cells| && cells[t].link.Owner?
      modifies `cells, `handles
      ensures Valid() && t < |old(handles).users| && handles == old(handles).(users := Inc(old(handles).users, t))
      ensures Steady(old(cells), old(handles), cells, handles) && SameTimers(old(cells), cells)
      ensures old(Ready()) ==> Ready()
    {
      hide Chain, Owned, Tallied, LoggedAs, IsHeap, Stale, SelfCancels, Replay, Steady, SameTimers, Outside;
      UsedCell(t);
      ghost var c := cells;
      AddRef(t);
      Counting(c, t, cells);
      HandOver(t);
      SameTimersSameFacts(c, cells, heap, handles.queued, cellOf, log);
      SteadyIfSame(c, old(handles), cells, handles);
    }

    /** A handle of the running code becomes the user's. */
    method HandOver(t: nat)
      requires Shape() && HeldHere(t)
      modifies `handles
      ensures Shape() && |old(handles).users| == |old(handles).held| == |cells|
      ensures handles == old(handles).(users := Inc(old(handles).users, t), held := Dec(old(handles).held, t))
    {
      hide Chain, Tallied;
      HeldCell(t);
      var h := handles;
      handles := h.(users := Inc(h.users, t), held := Dec(h.held, t));
      CellStep(cells, h, free, list, t, cells, handles);
    }

    /** A user drops a handle; the last one of a pending timer takes the timer with it. */
    method DropHandle(t: nat)
      requires Valid() && t < |handles.users| && handles.users[t] > 0
      modifies `cells, `free, `list, `handles, `heap, `cancelled, `miscounts, `collected, `log
      ensures Valid() && handles.users == Dec(old(handles).users, t) && handles.held == old(handles).held
      ensures |old(handles).queued| == |old(handles).held| == |old(cells)| && Steady(old(cells), old(handles), cells, handles)
      ensures old(LastButOne(t)) ==> log == old(log) + [Cancelled(old(cells)[t].id)] && FrontPending() && Tidy()
      ensures old(LastButOne(t)) ==> miscounts <= old(miscounts) + if old(handles).queued[t] > 0 then 0 else 1
      ensures !old(LastButOne(t)) ==> log == old(log) && SameTimers(old(cells), cells) && heap == old(heap)
      ensures !old(LastButOne(t)) ==> cancelled == old(cancelled) && miscounts == old(miscounts)
      ensures collected == old(collected) || (collected == log && log != old(log))
      ensures old(Ready()) ==> Ready()
    {
      hide Chain, Owned, Tallied, LoggedAs, IsHeap, Stale, SelfCancels, Replay, Steady, SameTimers, Outside;
      ghost var c, h := cells, handles;
      TakeBack(t);
      ghost var h1 := handles;
      Unmoved();
      Release(t);
      SameTimersIf(c);
      ReplayNext(old(log), Cancelled(c[t].id));
      SteadyFrom(c, h, h1, cells, handles);
    }

    /** A user's handle is in the hands of the running code, about to be dropped. */
    method TakeBack(t: nat)
      requires Shape() && t < |handles.users| && handles.users[t] > 0
      modifies `handles
      ensures Shape() && |old(handles).users| == |old(handles).held| == |cells| && HeldHere(t)
      ensures handles == old(handles).(users := Dec(old(handles).users, t), held := Inc(old(handles).held, t))
    {
      hide Chain, Tallied;
      var h := handles;
      assert CellOk(cells[t], h.users[t], h.queued[t], h.held[t]);
      handles := h.(users := Dec(h.users, t), held := Inc(h.held, t));
      CellStep(cells, h, free, list, t, cells, handles);
    }

    /** After the last step from `c`, if it left the timers alone. */
    lemma SameTimersIf(c: seq<Cell>)
      ensures SameTimers(c, cells) && IsHeap(heap, c) ==> IsHeap(heap, cells)
      ensures SameTimers(c, cells) && |handles.queued| == |c| ==>
        |cells| == |c| && Stale(cells, handles.queued) == Stale(c, handles.queued)
        && (Outside(c, handles.queued, Replay(log).firing) ==> Outside(cells, handles.queued, Replay(log).firing))
      ensures SameTimers(c, cells) && heap != [] && heap[0] < |c| && c[heap[0]].slot.Some? ==> FrontPending()
    {
      if SameTimers(c, cells) && IsHeap(heap, c) {
        SameTimersHeap(c, cells, heap);
      }
      if SameTimers(c, cells) && |handles.queued| == |c| {
        SameTimersSameFacts(c, cells, heap, handles.queued, cellOf, log);
      }
    }

    // -------------------------------------------------------------- callbacks

    /** Cancelling the timer in `t` would neither find a stale front nor set off a collection. */
    ghost predicate JustCounts(t: nat)
      reads `cells, `heap, `cancelled
    {
      FrontPending() && heap != [] && heap[0] != t && cancelled + 1 <= |heap| / 2
    }

    /** The callback of the timer in `cur` runs, and has the only handle held; or if that is none, nobody's does. */
    ghost predicate Running(cur: Option<nat>)
      reads `handles, `cellOf, `log
    {
      match cur
      case None => AtRest()
      case Some(c) => RunsIn(handles, cellOf, log, c)
    }

    /** In terms of cells: `t` holds pending timer `id`. */
    lemma Occupied(t: nat, id: nat)
      requires Logged()
      ensures Occupies(Seen(), t, id) <==> t < |cells| && cells[t].slot.Some? && cells[t].id == id
    {
      hide Replay, Legal;
      if Occupies(Seen(), t, id) {
        assert HeldIn(cells[cellOf[id - 1]], id);
      } else if t < |cells| && cells[t].slot.Some? {
        assert Holds(cells[t], t, cellOf, Replay(log).armed);
      }
    }

    /** What logging the cancellation of the timer in `t` means to users. */
    lemma CancelSeen(t: nat)
      requires Logged()
      ensures t < |cells| && cells[t].slot.Some? ==> Cancels(Seen(), t, log + [Cancelled(cells[t].id)])
      ensures !(t < |cells| && cells[t].slot.Some?) ==> Cancels(Seen(), t, log)
    {
      hide Replay, Legal, LoggedAs, Occupies;
      forall id: nat ensures Occupies(Seen(), t, id) <==> t < |cells| && cells[t].slot.Some? && cells[t].id == id {
        Occupied(t, id);
      }
    }

    /** The last but one handle of a pending timer is its last user's. */
    lemma LastUser(t: nat, cur: Option<nat>)
      requires Valid() && Running(cur) && t < |handles.users| && handles.users[t] > 0
      ensures t < |cells| && (LastButOne(t) <==> handles.users[t] == 1 && cells[t].slot.Some?)
    {
      hide Replay, Legal, Chain, IsHeap, Stale, SelfCancels;
      assert CellOk(cells[t], handles.users[t], handles.queued[t], handles.held[t]);
      if cells[t].slot.Some? {
        assert Holds(cells[t], t, cellOf, Replay(log).armed);
      }
    }

    /** What a callback does, or a user between calls; handles its user does not have cannot be used. */
    method Apply(op: Op, cur: Option<nat>, ghost now: int)
      requires Valid() && Running(cur)
      modifies this
      ensures Valid() && SameHeld(old(handles).held) && Steady(old(cells), old(handles), cells, handles)
      ensures OpStep(op, cur, old(Seen()), Seen())
      ensures collected == old(collected) || (collected == log && log != old(log))
      ensures maxId == old(maxId) + if op.Insert? then 1 else 0
      ensures old(Ready()) ==> Ready()
      ensures op.CancelSelf? && cur.Some? && old(SelfCancelCounts(cur.value)) ==>
        heap == old(heap) && cur.value < |cells| && cells[cur.value].slot.None?
        && cancelled == old(cancelled) + 1 && miscounts == old(miscounts) + 1
    {
      hide Chain, Owned, Tallied, LoggedAs, IsHeap, Stale, SelfCancels, Replay, Steady, Outside, Given, Cancels;
      if cur.Some? {
        HeldCell(cur.value);
      }
      Unmoved();
      match op
      case Insert(expiry, interval, handler) =>
        var t := Insert(expiry, interval, handler);
      case Cancel(t) =>
        if t < |handles.users| && handles.users[t] > 0 {
          UserCell(t);
          CancelSeen(t);
          CancelTimer(t);
        }
      case Copy(t) =>
        if t < |handles.users| && handles.users[t] > 0 {
          UserCell(t);
          CopyHandle(t);
        }
      case Drop(t) =>
        if t < |handles.users| && handles.users[t] > 0 {
          LastUser(t, cur);
          CancelSeen(t);
          DropHandle(t);
        }
      case CancelSelf =>
        if cur.Some? {
          CancelSeen(cur.value);
          CancelTimer(cur.value);
        }
      case CopySelf =>
        if cur.Some? {
          CopyHandle(cur.value);
        }
    }

    lemma UserCell(t: nat)
      requires Shape() && t < |handles.users| && handles.users[t] > 0
      ensures t < |cells| && cells[t].link.Owner?
    {
      assert CellOk(cells[t], handles.users[t], handles.queued[t], handles.held[t]);
    }

    /** The timer `cur` is pending but not in the heap, and nothing else happens when it is cancelled now. */
    ghost predicate SelfCancelCounts(cur: nat)
      reads `cells, `heap, `cancelled, `handles
    {
      && cur < |cells| && cells[cur].slot.Some? && cur < |handles.queued| && handles.queued[cur] == 0 && JustCounts(cur)
    }

    /** After an operation of a callback, the callback is still running. */
    lemma StillRunning(c: seq<Cell>, h: Handles, of: seq<nat>, l: seq<Event>, cur: nat, now: int)
      requires Valid() && RunsIn(h, of, l, cur) && SameHeld(h.held) && Steady(c, h, cells, handles)
      requires of <= cellOf && Continues(l, log, now)
      ensures RunsIn(handles, cellOf, log, cur)
    {
      hide Replay, Legal, Shape, Ordered, Counted, ArmedBy, Placed, Continues;
      CallbackKeepsFiring(l, log, now);
      assert Kept(c[cur], h.queued[cur], cells[cur], handles.queued[cur]);
    }

    /** The callback of the timer in `cur` runs. */
    method Invoke(ops: seq<Op>, cur: nat, ghost now: int)
      requires Valid() && Running(Some(cur)) && AllInFuture(ops, now)
      modifies this
      ensures Valid() && SameHeld(old(handles).held) && Steady(old(cells), old(handles), cells, handles)
      ensures Ran(ops, Some(cur), old(Seen()), Seen())
      ensures collected == old(collected) || (old(log) <= collected && collected != old(log))
      ensures maxId == old(maxId) + InsertCount(ops)
      ensures ops == [CancelSelf] && old(SelfCancelCounts(cur)) ==>
        heap == old(heap) && cur < |cells| && cells[cur].slot.None?
        && cancelled == old(cancelled) + 1 && miscounts == old(miscounts) + 1
    {
      hide Valid, Steady, SelfCancelCounts, OpStep, RunsIn, Ready;
      var i := 0;
      InvokeStart(now);
      assert ops[..0] == [];
      while i < |ops|
        invariant 0 <= i <= |ops|
        invariant Ran(ops[..i], Some(cur), old(Seen()), Seen()) && old(log) <= log
        invariant maxId == old(maxId) + InsertCount(ops[..i])
        invariant i == 0 ==> cells == old(cells) && handles == old(handles) && heap == old(heap) && cancelled == old(cancelled)
        invariant i == 0 ==> miscounts == old(miscounts)
        invariant i == 1 && ops[0].CancelSelf? && old(SelfCancelCounts(cur)) ==>
          heap == old(heap) && cur < |cells| && cells[cur].slot.None?
          && cancelled == old(cancelled) + 1 && miscounts == old(miscounts) + 1
        invariant Valid() && SameHeld(old(handles).held) && Running(Some(cur))
        invariant Steady(old(cells), old(handles), cells, handles)
        invariant collected == old(collected) || (old(log) <= collected && collected != old(log))
        decreases |ops| - i
      {
        ghost var c, h, l, of, seen := cells, handles, log, cellOf, Seen();
        Apply(ops[i], Some(cur), now);
        OpContinues(ops[i], Some(cur), seen, Seen(), now);
        RanNext(ops, i, Some(cur), old(Seen()), seen, Seen());
        StillRunning(c, h, of, l, cur, now);
        SteadyThen(old(cells), old(handles), c, h, cells, handles);
        assert ops[..i + 1][..i] == ops[..i];
        i := i + 1;
      }
      assert ops[..i] == ops;
    }

    lemma InvokeStart(now: int)
      requires Valid()
      ensures Steady(cells, handles, cells, handles)
    {
      Unmoved();
    }

    // -------------------------------------------------------------- dispatch

    /** What becomes of the timer just fired: a periodic one still pending goes back into the heap. */
    method Settle(t: nat, now: int, ghost id: nat)
      requires Valid() && HeldHere(t) && t < |cells| && t < |handles.queued| && handles.queued[t] == 0
      requires cells[t].id == id && 1 <= id <= |cellOf| && cellOf[id - 1] == t && Replay(log).firing == Some(id)
      modifies `cells, `heap, `handles, `log
      ensures Valid() && !LastButOne(t) && Replay(log).firing.None?
      ensures old(cells[t].slot.None?) ==> heap == old(heap)
      ensures log == old(log) + [Settled(id, now)] && cancelled == old(cancelled) && miscounts == old(miscounts)
      ensures handles.users == old(handles).users && handles.held == old(handles).held
    {
      hide Chain, Owned, Tallied, LoggedAs, IsHeap, Stale, SelfCancels, Replay, SettleStep;
      HeldCell(t);
      ghost var c, h := cells, handles;
      if cells[t].slot.Some? {
        if cells[t].interval > 0 {
          var next := cells[t].expiry + cells[t].interval;
          cells := cells[t := cells[t].(expiry := if next > now + 1 then next else now + 1)];
          // The heap's handle is a further one.
          cells := cells[t := cells[t].(refCount := cells[t].refCount + 1)];
          OutsideHeap(c, heap, handles.queued, t, cells);
          Push(t, handles.queued);
          handles := handles.(queued := handles.queued[t := 1]);
        } else {
          cells := cells[t := cells[t].(slot := None)];
          OutsideHeap(c, heap, handles.queued, t, cells);
        }
      }
      Settling(c, h, t, now);
      SettleLogged(c, h.queued, cellOf, log, t, id, now, cells, handles.queued);
      CellStep(c, h, free, list, t, cells, handles);
      log := log + [Settled(id, now)];
    }

    lemma Settling(c: seq<Cell>, h: Handles, t: nat, now: int)
      requires t < |c| && |h.queued| == |c| && h.queued[t] == 0
      requires
        if c[t].slot.Some? && c[t].interval > 0 then
          handles.queued == h.queued[t := 1] &&
          cells == c[t := c[t].(refCount := c[t].refCount + 1, expiry := Rescheduled(Entry(c[t].expiry, c[t].interval, c[t].slot.value), now).expiry)]
        else handles.queued == h.queued && cells == c[t := c[t].(slot := None)]
      ensures SettleStep(c, t, now, cells, handles.queued) && SameButAt(c, t, cells)
    {
    }

    /** The front timer is due: log that it fires. */
    ghost method LogFired(now: int)
      requires Valid() && AtRest() && heap != [] && heap[0] < |cells|
      requires cells[heap[0]].slot.Some? && cells[heap[0]].expiry <= now
      modifies `log
      ensures Shape() && Logged() && Ordered() && Counted(0) && log == old(log) + [Fired(cells[heap[0]].id, now)]
      ensures Replay(log).firing == Some(cells[heap[0]].id)
      ensures 1 <= cells[heap[0]].id <= |cellOf| && cellOf[cells[heap[0]].id - 1] == heap[0]
    {
      hide Chain, Owned, Tallied, ArmedBy, Placed, Legal, IsHeap, Stale, SelfCancels, Replay, CanHappen;
      FrontHolds();
      FiringLegal(cells, handles, heap, cellOf, log, now);
      FiredLogged(cells, handles.queued, cellOf, log, cells[heap[0]].id, now);
      log := log + [Fired(cells[heap[0]].id, now)];
    }

    lemma FrontHolds()
      requires LoggedAs(cells, handles.queued, cellOf, log) && heap != [] && heap[0] < |cells| && cells[heap[0]].slot.Some?
      ensures 1 <= cells[heap[0]].id <= |cellOf| && cellOf[cells[heap[0]].id - 1] == heap[0]
    {
      assert Holds(cells[heap[0]], heap[0], cellOf, Replay(log).armed);
    }

    /** After the callback of timer `id` in cell `t`, the queue's handle on it is still there. */
    lemma FiredCell(c: seq<Cell>, h: Handles, of: seq<nat>, t: nat, id: nat)
      requires Shape() && SameHeld(h.held) && Steady(c, h, cells, handles) && t < |c| && h.held[t] > 0 && h.queued[t] == 0
      requires c[t].id == id && 1 <= id <= |of| && of[id - 1] == t && of <= cellOf
      ensures HeldHere(t) && t < |cells| && |handles.queued| == |cells| && handles.queued[t] == 0
      ensures cells[t].id == id && 1 <= id <= |cellOf| && cellOf[id - 1] == t
    {
      assert Kept(c[t], h.queued[t], cells[t], handles.queued[t]);
    }

    lemma RestAgain(held0: seq<nat>, held1: seq<nat>, held2: seq<nat>, t: nat)
      requires NoneHeld(held0) && t < |held0| && held1 == Inc(held0, t) && |held1| <= |held2|
      requires forall u :: 0 <= u < |held1| ==> held2[u] == held1[u]
      requires forall u :: |held1| <= u < |held2| ==> held2[u] == 0
      ensures NoneHeld(Dec(held2, t))
    {
    }

    /** Taking the pending front out of the heap leaves the stale entries as they are. */
    method PopPending() returns (t: nat)
      requires Shape() && Logged() && Ordered() && Counted(0)
      requires heap != [] && heap[0] < |cells| && cells[heap[0]].slot.Some?
      requires Replay(log).firing == Some(cells[heap[0]].id)
      modifies `cells, `free, `list, `handles, `heap, `cancelled, `miscounts, `collected, `log
      ensures Valid() && t == old(heap[0]) && t < |cells| && cells == old(cells) && log == old(log)
      ensures |heap| == |old(heap)| - 1 && cancelled == old(cancelled) && miscounts == old(miscounts)
      ensures collected == old(collected) && |old(handles).queued| == |old(handles).held| == |cells|
      ensures handles == old(handles).(queued := old(handles).queued[t := 0], held := Inc(old(handles).held, t))
    {
      hide Chain, Owned, Tallied, LoggedAs, IsHeap, Stale, SelfCancels, Replay;
      Front();
      PoppedOutside(cells, cellOf, handles.queued, log, heap[0]);
      t := Pop();
      StaleWithout(cells, old(handles).queued, t);
    }

    /** With nothing counted as cancelled, a callback that cancels its own timer only bumps the count. */
    lemma PoppedSelf(t: nat)
      requires Valid() && t < |cells| && cells[t].slot.Some? && t < |handles.queued| && handles.queued[t] == 0
      ensures cancelled == 0 && |heap| >= 2 ==> SelfCancelCounts(t)
    {
      if cancelled == 0 && |heap| >= 2 {
        NothingStaleFront();
        TalliedEntry(heap, handles.queued, 0);
      }
    }

    /** `TimerQueue::expire`: the front timer's callback runs, and the timer is settled. */
    method Expire(now: int, ops: seq<Op>) returns (ghost mid: seq<Event>, ghost id: nat)
      requires Valid() && AtRest() && heap != [] && heap[0] < |cells|
      requires cells[heap[0]].slot.Some? && cells[heap[0]].expiry <= now
      requires AllInFuture(ops, now)
      modifies this
      ensures Valid() && AtRest()
      ensures id == old(cells[heap[0]].id) && OneFiring(old(log), mid, log, id, now)
      ensures Fires(ops, old(Seen()), Seen(), id, now)
      ensures collected == old(collected) || (old(log) <= collected && collected != old(log))
      ensures ops == [] ==> mid == old(log) + [Fired(id, now)]
      ensures maxId == old(maxId) + InsertCount(ops)
      ensures Due(Replay(log), now) < Due(Replay(old(log)), now)
      ensures Settles(Replay(mid), id, now, Replay(log))
      ensures ops == [CancelSelf] && old(cancelled) == 0 && |old(heap)| >= 3 ==>
        |heap| == |old(heap)| - 1 && cancelled == old(cancelled) + 1 && miscounts == old(miscounts) + 1
    {
      hide Chain, Owned, Tallied, Legal, ArmedBy, Placed, Outside, IsHeap, Stale, SelfCancels, Replay, Steady, Continues, Due, Ran, Settles;
      ghost var log0, held0, seen0 := log, handles.held, Seen();
      id := cells[heap[0]].id;
      LogFired(now);
      var t := PopPending();
      PoppedSelf(t);
      ghost var c, h, l, of, seen := cells, handles, log, cellOf, Seen();
      Invoke(ops, t, now);
      ghost var done := Seen();
      RanContinues(ops, Some(t), seen, done, now);
      RanNone(ops, Some(t), seen, done);
      mid := log;
      CallbackKeepsFiring(l, mid, now);
      FiredCell(c, h, of, t, id);
      ghost var held2 := handles.held;
      SettledSettles(Replay(mid), id, now);
      Settle(t, now, id);
      ReplayNext(mid, Settled(id, now));
      ghost var up := cells;
      Release(t);
      SameTimersSameFacts(up, cells, heap, handles.queued, cellOf, log);
      FiringProgress(log0, mid, id, now);
      RestAgain(held0, h.held, held2, t);
      assert seen == View(seen0.log + [Fired(id, now)], seen0.cellOf, seen0.users);
      assert Seen() == View(done.log + [Settled(id, now)], done.cellOf, done.users);
      FiresBy(ops, seen0, done, Seen(), t, id, now);
    }

    lemma FiresBy(ops: seq<Op>, v: View, done: View, v': View, t: nat, id: nat, now: int)
      requires 1 <= id <= |v.cellOf| && v.cellOf[id - 1] == t && v' == TimerUse.Logged(done, Settled(id, now))
      requires Ran(ops, Some(t), TimerUse.Logged(v, Fired(id, now)), done)
      ensures Fires(ops, v, v', id, now)
    {
    }

    /** With nothing in the heap, or a pending front not yet due, nothing is due. */
    lemma NothingDue(now: int)
      requires Valid() && AtRest()
      requires heap == [] || (heap[0] < |cells| && cells[heap[0]].expiry > now)
      ensures Due(Replay(log), now) == {}
    {
      hide Chain, Legal, Replay, Stale, SelfCancels, Owned, IsHeap, Tallied;
      forall id | id in Due(Replay(log), now) ensures false {
        var u := cellOf[id - 1];
        assert HeldIn(cells[u], id) && Holds(cells[u], u, cellOf, Replay(log).armed);
        EarliestInHeap(cells, heap, handles.queued, u);
      }
    }

    /**
     Fire every timer due at `now`, the earliest first. The nth callback does `react(n)`, and just that; as long as
     none inserts a timer already due, this ends, and then nothing is due. When the callbacks leave the queue alone,
     exactly the timers due at the start have fired, each once.
     */
    method Dispatch(now: int, react: nat -> seq<Op>) returns (work: nat, ghost ids: seq<nat>)
      requires Valid() && AtRest()
      requires forall n: nat :: AllInFuture(react(n), now)
      modifies this
      ensures Ready()
      ensures Due(Replay(log), now) == {}
      ensures Dispatched(react, old(Seen()), Seen(), now, work)
      ensures collected == old(collected) || old(log) <= collected
      ensures DispatchLog(old(log), log, now, work) && AllSettle(old(log), log)
      ensures maxId == old(maxId) + InsertCounts(react, work)
      ensures (forall n: nat :: react(n) == []) ==>
        log == old(log) + Rounds(ids, now) && |ids| == work == |Due(Replay(old(log)), now)| && NoRepeats(ids)
        && Elements(ids) == Due(Replay(old(log)), now)
        && SettledDue(Replay(old(log)), Due(Replay(old(log)), now), now, Replay(log))
    {
      hide Shape, Logged, Ordered, Counted, FiringOut, Due, Rounds, Replay, OneFiring, Fires, AllInFuture, Dispatched, DispatchLog, AllSettle, Settles, SettledDue;
      work, ids := 0, [];
      NoRounds(log, now);
      NothingDispatched(react, Seen(), now);
      while heap != []
        invariant Valid() && AtRest()
        invariant Dispatched(react, old(Seen()), Seen(), now, work)
        invariant old(log) <= log && (collected == old(collected) || old(log) <= collected)
        invariant maxId == old(maxId) + InsertCounts(react, work)
        invariant |ids| == work && ((forall n: nat :: react(n) == []) ==> log == old(log) + Rounds(ids, now))
        decreases |Due(Replay(log), now)|, |heap|
      {
        FrontCell();
        // If not pending, then it must have been cancelled.
        if cells[heap[0]].slot.None? {
          PopStale();
        } else if cells[heap[0]].expiry <= now {
          ghost var log0, seen := log, Seen();
          ghost var mid, id := Expire(now, react(work));
          FewerDue(log0, log, now);
          RoundDone(old(log), log0, mid, log, id, now, ids);
          DispatchedNext(react, old(Seen()), seen, Seen(), now, work, id);
          work, ids := work + 1, ids + [id];
        } else {
          break;
        }
      }
      NothingDue(now);
      DispatchedGrows(react, old(Seen()), Seen(), now, work);
      Gc();
      DispatchSettles(old(log));
      QuietDispatch(old(log), ids, now);
    }

    lemma DispatchSettles(before: seq<Event>)
      requires Logged()
      ensures AllSettle(before, log)
    {
      LegalSettles(before, log);
    }

    lemma NoRounds(l: seq<Event>, now: int)
      ensures l + Rounds([], now) == l
    {
    }

    lemma FewerDue(log0: seq<Event>, log1: seq<Event>, now: int)
      requires Due(Replay(log1), now) < Due(Replay(log0), now)
      ensures |Due(Replay(log1), now)| < |Due(Replay(log0), now)|
    {
      var a, b := Due(Replay(log1), now), Due(Replay(log0), now);
      assert b == a + (b - a) && b - a != {};
    }

    lemma RoundDone(start: seq<Event>, log0: seq<Event>, mid: seq<Event>, log1: seq<Event>, id: nat, now: int, ids: seq<nat>)
      requires OneFiring(log0, mid, log1, id, now)
      ensures log0 <= log1
      ensures log0 == start + Rounds(ids, now) && mid == log0 + [Fired(id, now)] ==> log1 == start + Rounds(ids + [id], now)
    {
      RoundsLast(ids, id, now);
    }

    lemma QuietDispatch(start: seq<Event>, ids: seq<nat>, now: int)
      requires Logged() && Replay(start).firing.None? && Due(Replay(log), now) == {}
      ensures log == start + Rounds(ids, now) ==>
        |ids| == |Due(Replay(start), now)| && NoRepeats(ids) && Elements(ids) == Due(Replay(start), now)
        && SettledDue(Replay(start), Due(Replay(start), now), now, Replay(log))
    {
      if log == start + Rounds(ids, now) {
        FiresExactlyDue(start, ids, now);
      }
    }

    /** What `size()` reports. */
    function Size(): int
      reads `heap, `cancelled
    {
      |heap| - cancelled
    }

    // -------------------------------------------------------------- between calls

    lemma PendingAreQueued()
      requires Valid() && AtRest()
      ensures PendingIn(cells, handles.queued) == PendingCells(cells)
    {
    }

    /**
     `size()` falls short of the number of pending timers by the timers that were cancelled by their own callbacks
     since the last collection; so it is right if and only if there was no such cancellation since then.
     */
    lemma SizeCounts()
      requires Valid() && AtRest()
      ensures Size() == |PendingCells(cells)| - miscounts
      ensures miscounts == SelfCancels(log) - SelfCancels(collected)
      ensures Size() == |PendingCells(cells)| <==> !SelfCancelledSince(collected, log)
      ensures cancelled >= |Stale(cells, handles.queued)|
    {
      hide Shape, Logged, Ordered, FiringOut, SelfCancelledSince, SelfCancels;
      PendingAreQueued();
      HeapCounted();
      SelfCancelsSince(collected, log);
    }

    lemma HeapCounted()
      requires Valid()
      ensures |heap| == |PendingIn(cells, handles.queued)| + |Stale(cells, handles.queued)|
    {
      HeapCount(cells, heap, handles);
    }

    /** The heap is never more than twice as long as there are pending timers. */
    lemma HeapStaysSmall()
      requires Valid() && AtRest() && Tidy()
      ensures |heap| <= 2 * |PendingCells(cells)|
      ensures 0 <= Size() <= |PendingCells(cells)|
    {
      SizeCounts();
      PendingAreQueued();
      HeapCount(cells, heap, handles);
    }

    /** The front of the queue is the timer to fire next. */
    lemma FrontIsNext()
      requires Valid() && AtRest() && FrontPending() && heap != []
      ensures heap[0] < |cells| && IsArmed(Replay(log), cells[heap[0]].id) && Earliest(Replay(log), cells[heap[0]].id)
      ensures Expiry(Replay(log), cells[heap[0]].id) == cells[heap[0]].expiry
    {
      hide Chain, Legal, Replay, Stale, SelfCancels, IsHeap;
      assert Holds(cells[heap[0]], heap[0], cellOf, Replay(log).armed);
      FiringLegal(cells, handles, heap, cellOf, log, cells[heap[0]].expiry);
    }

    /** One call after another, whatever they are, leaves the queue ready; each does what it should to what users see. */
    method Serve(calls: seq<Call>)
      requires Ready() && forall k :: 0 <= k < |calls| ==> Fair(calls[k])
      modifies this
      ensures Ready() && Served(calls, old(Seen()), Seen())
    {
      hide Ready, OpStep, Dispatched, Fair;
      var i := 0;
      assert calls[..0] == [];
      while i < |calls|
        invariant 0 <= i <= |calls| && Ready() && Served(calls[..i], old(Seen()), Seen())
        decreases |calls| - i
      {
        ghost var seen := Seen();
        ServeOne(calls[i]);
        assert calls[..i + 1][..i] == calls[..i];
        assert ServedLast(calls[..i + 1], seen, Seen());
        i := i + 1;
      }
      assert calls[..i] == calls;
    }

    method ServeOne(call: Call)
      requires Ready() && Fair(call)
      modifies this
      ensures Ready() && CallStep(call, old(Seen()), Seen())
    {
      hide Shape, Logged, Ordered, Counted, FiringOut, OpStep, Dispatched;
      match call
      case Use(op) => Apply(op, None, 0);
      case Dispatch(now, react) =>
        var work, ids := Dispatch(now, react);
    }

    /** Every cell is on the free list exactly once, or its reference count is the number of its handles. */
    lemma CellsAreOwned(t: nat)
      requires Valid() && AtRest() && t < |cells|
      ensures |handles.users| == |cells|
      ensures cells[t].link.Next? <==> t in list
      ensures NoRepeats(list)
      ensures cells[t].link.Next? ==> handles.users[t] == 0 && t !in heap && cells[t].slot.None?
      ensures cells[t].link.Owner? ==> cells[t].refCount == handles.users[t] + (if t in heap then 1 else 0) >= 1
    {
      assert CellOk(cells[t], handles.users[t], handles.queued[t], handles.held[t]);
      assert t in heap <==> t in multiset(heap);
      if t in list {
        var i: nat :| i < |list| && list[i] == t;
        assert Linked(cells, list, i);
      }
    }

    /** A pending timer has a user; dropping the last user's handle is what cancels it. */
    lemma PendingHasUser(t: nat)
      requires Valid() && AtRest() && t < |cells| && cells[t].slot.Some?
      ensures t < |handles.users| && handles.users[t] >= 1 && (handles.users[t] == 1 <==> LastButOne(t))
    {
      assert CellOk(cells[t], handles.users[t], handles.queued[t], handles.held[t]);
    }
  }

  /**
   Three timers, the first of which cancels itself in its callback: afterwards two are pending, and `size()`
   says one.
   */
  method SizeUnderReports() returns (q: Queue)
    ensures fresh(q) && q.Valid() && q.AtRest() && |PendingCells(q.cells)| == 2 && q.Size() == 1
  {
    hide Queue.Shape, Queue.Logged, Queue.Ordered, Queue.Counted, Queue.FiringOut, PendingCells, Due, Replay;
    hide Given, Fires, SelfCancels, SelfCancelledSince, Steady, OneFiring;
    q := new Queue();
    var first := q.Insert(1, 0, 7);
    var second := q.Insert(5, 0, 7);
    var third := q.Insert(6, 0, 7);
    FirstIsArmed(q.log);
    q.FrontIsNext();
    ghost var mid, id := q.Expire(1, [CancelSelf]);
    q.SizeCounts();
  }

  lemma FirstIsArmed(log: seq<Event>)
    requires log == [] + [Inserted(Entry(1, 0, 7))] + [Inserted(Entry(5, 0, 7))] + [Inserted(Entry(6, 0, 7))]
    ensures IsArmed(Replay(log), 1) && Expiry(Replay(log), 1) == 1
  {
    var one := [] + [Inserted(Entry(1, 0, 7))];
    ReplayNext([], Inserted(Entry(1, 0, 7)));
    ReplayNext(one, Inserted(Entry(5, 0, 7)));
    ReplayNext(one + [Inserted(Entry(5, 0, 7))], Inserted(Entry(6, 0, 7)));
  }
}
