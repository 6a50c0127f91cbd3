/**
 What is true of a timer queue's cells between any two of its steps, on values: who owns each cell, which
 cells the pending timers are in, and how many heap entries are left over from cancelled timers.

 Handles are counted by where they are: `users` are the callers', `queued` the heap's, `held` those of the
 code that is running.
 */
module TimerState {
  import opened Options
  import opened TimerLog
  import opened TimerHeap

  /** The free list is the chain of links from its head; `list` names its cells in order. */
  ghost predicate Chain(cells: seq<Cell>, free: Option<nat>, list: seq<nat>) {
    && free == (if list == [] then None else Some(list[0]))
    && NoRepeats(list)
    && (forall i :: 0 <= i < |list| ==> list[i] < |cells| && Linked(cells, list, i))
    && (forall t :: 0 <= t < |cells| && cells[t].link.Next? ==> t in list)
  }

  ghost predicate Linked(cells: seq<Cell>, list: seq<nat>, i: nat)
    requires i < |list| && list[i] < |cells|
  {
    cells[list[i]].link == Next(if i + 1 < |list| then Some(list[i + 1]) else None)
  }

  datatype Handles = Handles(users: seq<nat>, queued: seq<nat>, held: seq<nat>)

  /**
   A cell on the free list has no handle anywhere; any other's reference count is the number of its handles.
   A pending timer has at least two, and the heap never holds more than one.
   */
  ghost predicate CellOk(c: Cell, users: nat, queued: nat, held: nat) {
    if c.link.Next? then c.slot.None? && c.refCount == 0 && users == 0 && queued == 0 && held == 0
    else c.refCount == users + queued + held && c.refCount >= 1 && queued <= 1 && (c.slot.Some? ==> c.refCount >= 2)
  }

  ghost predicate Owned(cells: seq<Cell>, h: Handles) {
    && |h.users| == |cells| && |h.queued| == |cells| && |h.held| == |cells|
    && (forall t :: 0 <= t < |cells| ==> CellOk(cells[t], h.users[t], h.queued[t], h.held[t]))
  }

  /** The heap's entries are the handles counted as queued. */
  ghost predicate Tallied(heap: seq<nat>, queued: seq<nat>) {
    && (forall i :: 0 <= i < |heap| ==> heap[i] < |queued|)
    && (forall t :: 0 <= t < |queued| ==> multiset(heap)[t] == queued[t])
  }

  /** Cell `t` holds the pending timer whose id it carries; every armed timer has such a cell. */
  ghost predicate ArmedBy(cells: seq<Cell>, cellOf: seq<nat>, armed: seq<Option<Entry>>) {
    && |cellOf| == |armed|
    && (forall t :: 0 <= t < |cells| && cells[t].slot.Some? ==> Holds(cells[t], t, cellOf, armed))
    && (forall i :: 0 <= i < |armed| && armed[i].Some? ==> cellOf[i] < |cells| && HeldIn(cells[cellOf[i]], i + 1))
  }

  ghost predicate Holds(c: Cell, t: nat, cellOf: seq<nat>, armed: seq<Option<Entry>>)
    requires |cellOf| == |armed| && c.slot.Some?
  {
    1 <= c.id <= |armed| && cellOf[c.id - 1] == t && armed[c.id - 1] == Some(Entry(c.expiry, c.interval, c.slot.value))
  }

  ghost predicate HeldIn(c: Cell, id: nat) {
    c.slot.Some? && c.id == id
  }

  /** A pending timer is in the heap, unless its own callback is running. */
  ghost predicate Placed(cells: seq<Cell>, queued: seq<nat>, firing: Option<nat>)
    requires |queued| == |cells|
  {
    forall t :: 0 <= t < |cells| && cells[t].slot.Some? ==> queued[t] > 0 || firing == Some(cells[t].id)
  }

  /** While a timer's callback runs, the heap has no entry for it. */
  ghost predicate Outside(cells: seq<Cell>, queued: seq<nat>, firing: Option<nat>)
    requires |queued| == |cells|
  {
    forall t :: 0 <= t < |cells| && cells[t].slot.Some? && firing == Some(cells[t].id) ==> queued[t] == 0
  }

  /** The cells hold exactly the timers that replaying the log leaves armed. */
  ghost predicate LoggedAs(cells: seq<Cell>, queued: seq<nat>, cellOf: seq<nat>, log: seq<Event>) {
    && Legal(log) && ArmedBy(cells, cellOf, Replay(log).armed)
    && |queued| == |cells| && Placed(cells, queued, Replay(log).firing)
  }

  /** Heap entries of timers no longer pending. */
  ghost function Stale(cells: seq<Cell>, queued: seq<nat>): set<nat>
    requires |queued| == |cells|
  {
    set t | 0 <= t < |cells| && queued[t] > 0 && cells[t].slot.None?
  }

  ghost function PendingIn(cells: seq<Cell>, queued: seq<nat>): set<nat>
    requires |queued| == |cells|
  {
    set t | 0 <= t < |cells| && queued[t] > 0 && cells[t].slot.Some?
  }

  ghost function PendingCells(cells: seq<Cell>): set<nat> {
    set t | 0 <= t < |cells| && cells[t].slot.Some?
  }

  function Inc(counts: seq<nat>, t: nat): seq<nat>
    requires t < |counts|
  {
    counts[t := counts[t] + 1]
  }

  function Dec(counts: seq<nat>, t: nat): seq<nat>
    requires t < |counts| && counts[t] > 0
  {
    counts[t := counts[t] - 1]
  }

  ghost predicate NoneHeld(held: seq<nat>) {
    forall t :: 0 <= t < |held| ==> held[t] == 0
  }

  // ---------------------------------------------------------------- steps that leave the timers alone

  /** Same timers in the same cells; only reference counts and links may differ. */
  ghost predicate SameTimers(c: seq<Cell>, c': seq<Cell>) {
    |c| == |c'| && forall t :: 0 <= t < |c| ==> SameTimer(c[t], c'[t])
  }

  ghost predicate SameTimer(c: Cell, c': Cell) {
    c'.id == c.id && c'.expiry == c.expiry && c'.interval == c.interval && c'.slot == c.slot
  }

  lemma SameTimersSameFacts(c: seq<Cell>, c': seq<Cell>, heap: seq<nat>, queued: seq<nat>, cellOf: seq<nat>, log: seq<Event>)
    requires SameTimers(c, c') && |queued| == |c|
    ensures LoggedAs(c, queued, cellOf, log) ==> LoggedAs(c', queued, cellOf, log)
    ensures IsHeap(heap, c) ==> IsHeap(heap, c')
    ensures Stale(c', queued) == Stale(c, queued)
    ensures Outside(c, queued, Replay(log).firing) ==> Outside(c', queued, Replay(log).firing)
  {
    hide Legal, Replay, IsHeap, ArmedBy;
    SameTimersArmed(c, c', cellOf, Replay(log).armed);
    SameTimersHeap(c, c', heap);
    assert forall u :: 0 <= u < |c| ==> SameTimer(c[u], c'[u]);
  }

  lemma OutsideStays(c: seq<Cell>, queued: seq<nat>, firing: Option<nat>, c': seq<Cell>, queued': seq<nat>)
    requires SameTimers(c, c') && |queued'| == |queued| == |c| && Outside(c, queued, firing)
    requires forall t :: 0 <= t < |c| ==> queued'[t] <= queued[t]
    ensures Outside(c', queued', firing)
  {
    assert forall t :: 0 <= t < |c| ==> SameTimer(c[t], c'[t]);
  }

  lemma SameTimersArmed(c: seq<Cell>, c': seq<Cell>, cellOf: seq<nat>, armed: seq<Option<Entry>>)
    requires SameTimers(c, c')
    ensures ArmedBy(c, cellOf, armed) ==> ArmedBy(c', cellOf, armed)
  {
    if ArmedBy(c, cellOf, armed) {
      forall t | 0 <= t < |c'| && c'[t].slot.Some? ensures Holds(c'[t], t, cellOf, armed) {
        assert SameTimer(c[t], c'[t]);
      }
      forall i | 0 <= i < |armed| && armed[i].Some? ensures cellOf[i] < |c'| && HeldIn(c'[cellOf[i]], i + 1) {
        assert SameTimer(c[cellOf[i]], c'[cellOf[i]]) && HeldIn(c[cellOf[i]], i + 1);
      }
    }
  }

  lemma SameTimersHeap(c: seq<Cell>, c': seq<Cell>, heap: seq<nat>)
    requires SameTimers(c, c')
    ensures IsHeap(heap, c) ==> IsHeap(heap, c')
  {
    if IsHeap(heap, c) {
      forall i | 0 < i < |heap| ensures Under(heap, c', i) {
        assert Under(heap, c, i);
        assert SameTimer(c[heap[i]], c'[heap[i]]) && SameTimer(c[heap[Parent(i)]], c'[heap[Parent(i)]]);
      }
    }
  }

  /** Cells with a handle held by running code keep their identity, and do not enter the heap. */
  ghost predicate Steady(c: seq<Cell>, h: Handles, c': seq<Cell>, h': Handles) {
    && |c| == |h.held| == |h.queued| && |c'| == |h'.queued| == |h'.held| && |c| <= |c'|
    && forall t :: 0 <= t < |c| && h'.held[t] > 0 ==> Kept(c[t], h.queued[t], c'[t], h'.queued[t])
  }

  ghost predicate Kept(c: Cell, queued: nat, c': Cell, queued': nat) {
    && c'.id == c.id && c'.expiry == c.expiry && c'.interval == c.interval
    && queued' <= queued && (c'.slot.Some? ==> c'.slot == c.slot)
  }

  lemma SteadyIfSame(c: seq<Cell>, h: Handles, c': seq<Cell>, h': Handles)
    requires SameTimers(c, c') && |c| == |h.held| == |h.queued| == |h'.held| == |h'.queued|
    requires forall t :: 0 <= t < |c| ==> h'.queued[t] <= h.queued[t]
    ensures Steady(c, h, c', h')
  {
    forall t | 0 <= t < |c| && h'.held[t] > 0 ensures Kept(c[t], h.queued[t], c'[t], h'.queued[t]) {
      assert SameTimer(c[t], c'[t]);
    }
  }

  /** Only who holds what differed in between. */
  lemma SteadyFrom(c: seq<Cell>, h: Handles, h1: Handles, c': seq<Cell>, h': Handles)
    requires Steady(c, h1, c', h') && h1.queued == h.queued && |h.held| == |c|
    ensures Steady(c, h, c', h')
  {
    forall t | 0 <= t < |c| && h'.held[t] > 0 ensures Kept(c[t], h.queued[t], c'[t], h'.queued[t]) {
      assert Kept(c[t], h1.queued[t], c'[t], h'.queued[t]);
    }
  }

  lemma SteadyThen(c: seq<Cell>, h: Handles, c1: seq<Cell>, h1: Handles, c2: seq<Cell>, h2: Handles)
    requires Steady(c, h, c1, h1) && Steady(c1, h1, c2, h2)
    requires forall t :: 0 <= t < |c| && h2.held[t] > 0 ==> h1.held[t] > 0
    ensures Steady(c, h, c2, h2)
  {
    forall t | 0 <= t < |c| && h2.held[t] > 0 ensures Kept(c[t], h.queued[t], c2[t], h2.queued[t]) {
      assert Kept(c[t], h.queued[t], c1[t], h1.queued[t]) && Kept(c1[t], h1.queued[t], c2[t], h2.queued[t]);
    }
  }

  lemma SteadyIfReset(c: seq<Cell>, h: Handles, t: nat, c': seq<Cell>, h': Handles)
    requires Reset(c, t, c') && |c| == |h.held| == |h.queued| == |h'.held| && h'.queued == h.queued
    ensures Steady(c, h, c', h')
  {
    forall u | 0 <= u < |c| && h'.held[u] > 0 ensures Kept(c[u], h.queued[u], c'[u], h'.queued[u]) {
      assert u != t ==> c'[u] == c[u];
    }
  }

  // ---------------------------------------------------------------- cancelling

  ghost predicate SameButAt(c: seq<Cell>, t: nat, c': seq<Cell>) {
    && |c'| == |c| && t < |c| && c'[t].link == c[t].link
    && forall u :: 0 <= u < |c| && u != t ==> c'[u] == c[u]
  }

  /** The slot of `t` is reset; its reference count may drop at the same time. */
  ghost predicate Reset(c: seq<Cell>, t: nat, c': seq<Cell>) {
    && SameButAt(c, t, c') && c[t].slot.Some? && c'[t].slot.None?
    && c'[t].id == c[t].id && c'[t].expiry == c[t].expiry && c'[t].interval == c[t].interval
  }

  /** Resetting a timer's slot disarms exactly that timer. */
  lemma ResetDisarms(c: seq<Cell>, cellOf: seq<nat>, armed: seq<Option<Entry>>, t: nat, c': seq<Cell>)
    requires ArmedBy(c, cellOf, armed) && Reset(c, t, c')
    ensures 1 <= c[t].id <= |armed| && armed[c[t].id - 1].Some?
    ensures ArmedBy(c', cellOf, Disarmed(armed, c[t].id))
  {
    assert Holds(c[t], t, cellOf, armed);
    var armed' := Disarmed(armed, c[t].id);
    forall u | 0 <= u < |c'| && c'[u].slot.Some? ensures Holds(c'[u], u, cellOf, armed') {
      assert Holds(c[u], u, cellOf, armed);
    }
    forall i | 0 <= i < |armed'| && armed'[i].Some? ensures cellOf[i] < |c'| && HeldIn(c'[cellOf[i]], i + 1) {
      assert HeldIn(c[cellOf[i]], i + 1);
    }
  }

  /** The heap keeps an entry for a timer cancelled while it waits there. */
  lemma ResetStale(c: seq<Cell>, queued: seq<nat>, t: nat, c': seq<Cell>)
    requires Reset(c, t, c') && |queued| == |c|
    ensures |Stale(c', queued)| == |Stale(c, queued)| + if queued[t] > 0 then 1 else 0
  {
    assert t !in Stale(c, queued);
    assert forall u :: 0 <= u < |c| && u != t ==> c'[u] == c[u];
    assert Stale(c', queued) == if queued[t] > 0 then Stale(c, queued) + {t} else Stale(c, queued);
  }

  lemma ResetKeepsHeap(c: seq<Cell>, heap: seq<nat>, t: nat, c': seq<Cell>)
    requires IsHeap(heap, c) && Reset(c, t, c')
    ensures IsHeap(heap, c')
  {
    forall i | 0 < i < |heap| ensures Under(heap, c', i) {
      assert Under(heap, c, i);
    }
  }

  lemma ResetPlaced(c: seq<Cell>, queued: seq<nat>, firing: Option<nat>, t: nat, c': seq<Cell>)
    requires |queued| == |c| && Placed(c, queued, firing) && Outside(c, queued, firing) && Reset(c, t, c')
    ensures Placed(c', queued, firing) && (queued[t] > 0 <==> firing != Some(c[t].id))
    ensures Outside(c', queued, firing)
  {
    assert forall u :: 0 <= u < |c| && u != t ==> c'[u] == c[u];
  }

  /** Cancelling a timer: what the log, the heap and its stale entries look like then. */
  lemma CancelLogged(c: seq<Cell>, cellOf: seq<nat>, heap: seq<nat>, queued: seq<nat>, log: seq<Event>, t: nat, c': seq<Cell>)
    requires |queued| == |c| && Reset(c, t, c')
    requires LoggedAs(c, queued, cellOf, log) && Outside(c, queued, Replay(log).firing)
    ensures var log' := log + [Cancelled(c[t].id)];
            LoggedAs(c', queued, cellOf, log') && Outside(c', queued, Replay(log').firing)
            && |Replay(log').armed| == |Replay(log).armed| && Replay(log').firing == Replay(log).firing
            && SelfCancels(log') == SelfCancels(log) + if queued[t] > 0 then 0 else 1
    ensures |Stale(c', queued)| == |Stale(c, queued)| + if queued[t] > 0 then 1 else 0
    ensures IsHeap(heap, c) ==> IsHeap(heap, c')
  {
    hide Legal, ArmedBy, Placed, Outside, IsHeap, Stale;
    ResetDisarms(c, cellOf, Replay(log).armed, t, c');
    ResetPlaced(c, queued, Replay(log).firing, t, c');
    ResetStale(c, queued, t, c');
    ReplayNext(log, Cancelled(c[t].id));
    SelfCancelsNext(log, Cancelled(c[t].id));
    if IsHeap(heap, c) {
      ResetKeepsHeap(c, heap, t, c');
    }
  }

  // ---------------------------------------------------------------- handles and cells

  lemma SameLinksSameChain(c: seq<Cell>, c': seq<Cell>, free: Option<nat>, list: seq<nat>)
    requires Chain(c, free, list) && |c| == |c'| && forall t :: 0 <= t < |c| ==> c'[t].link == c[t].link
    ensures Chain(c', free, list)
  {
    forall i | 0 <= i < |list| ensures list[i] < |c'| && Linked(c', list, i) {
      assert Linked(c, list, i);
    }
  }

  /** A step at one cell in use, its counts adding up again afterwards. */
  lemma CellStep(c: seq<Cell>, h: Handles, free: Option<nat>, list: seq<nat>, t: nat, c': seq<Cell>, h': Handles)
    requires Chain(c, free, list) && Owned(c, h) && SameButAt(c, t, c')
    requires |h'.users| == |h'.queued| == |h'.held| == |c|
    requires forall u :: 0 <= u < |c| && u != t ==>
               h'.users[u] == h.users[u] && h'.queued[u] == h.queued[u] && h'.held[u] == h.held[u]
    requires CellOk(c'[t], h'.users[t], h'.queued[t], h'.held[t])
    ensures Chain(c', free, list) && Owned(c', h')
  {
    SameLinksSameChain(c, c', free, list);
    forall u | 0 <= u < |c'| ensures CellOk(c'[u], h'.users[u], h'.queued[u], h'.held[u]) {
      assert CellOk(c[u], h.users[u], h.queued[u], h.held[u]);
    }
  }

  /** The last handle gone, the cell goes back on the free list. */
  lemma CellFreed(c: seq<Cell>, h: Handles, free: Option<nat>, list: seq<nat>, t: nat, c': seq<Cell>)
    requires Chain(c, free, list) && Owned(c, h) && t < |c| && h.held[t] > 0 && c[t].refCount == 1
    requires c' == c[t := c[t].(refCount := 0, link := Next(free))]
    ensures Chain(c', Some(t), [t] + list) && Owned(c', h.(held := Dec(h.held, t)))
    ensures SameTimers(c, c')
  {
    var h' := h.(held := Dec(h.held, t));
    assert CellOk(c[t], h.users[t], h.queued[t], h.held[t]);
    forall u | 0 <= u < |c'| ensures CellOk(c'[u], h'.users[u], h'.queued[u], h'.held[u]) {
      assert CellOk(c[u], h.users[u], h.queued[u], h.held[u]);
    }
    ChainGrown(c, free, list, t, c');
  }

  lemma ChainGrown(c: seq<Cell>, free: Option<nat>, list: seq<nat>, t: nat, c': seq<Cell>)
    requires Chain(c, free, list) && t < |c| && c[t].link.Owner?
    requires |c'| == |c| && c'[t].link == Next(free) && forall u :: 0 <= u < |c| && u != t ==> c'[u] == c[u]
    ensures Chain(c', Some(t), [t] + list)
  {
    var list' := [t] + list;
    forall i | 0 <= i < |list'| ensures list'[i] < |c'| && Linked(c', list', i) {
      if i > 0 {
        assert Linked(c, list, i - 1);
      }
    }
    UsedNotListed(c, free, list, t);
    NoRepeatsCons(t, list);
    forall u | 0 <= u < |c'| && c'[u].link.Next? ensures u in list' {
      InLonger(t, list, u);
    }
  }

  lemma UsedNotListed(c: seq<Cell>, free: Option<nat>, list: seq<nat>, t: nat)
    requires Chain(c, free, list) && t < |c| && c[t].link.Owner?
    ensures t !in list
  {
    forall i | 0 <= i < |list| ensures list[i] != t {
      assert Linked(c, list, i);
    }
  }

  lemma NoRepeatsCons(t: nat, list: seq<nat>)
    requires NoRepeats(list) && t !in list
    ensures NoRepeats([t] + list)
  {
  }

  lemma InLonger(t: nat, list: seq<nat>, u: nat)
    requires u == t || u in list
    ensures u in [t] + list
  {
  }

  /** The head of the free list is taken: an unused cell, off the list. */
  lemma ChainShrunk(c: seq<Cell>, free: Option<nat>, list: seq<nat>, c': seq<Cell>)
    requires Chain(c, free, list) && list != []
    requires |c'| == |c| && c'[list[0]].link.Owner? && forall u :: 0 <= u < |c| && u != list[0] ==> c'[u] == c[u]
    ensures c[list[0]].link.Next? && Chain(c', c[list[0]].link.next, list[1..])
  {
    var t, list' := list[0], list[1..];
    assert Linked(c, list, 0);
    forall i | 0 <= i < |list'| ensures list'[i] < |c'| && Linked(c', list', i) {
      assert Linked(c, list, i + 1) && list'[i] == list[i + 1];
    }
    forall u | 0 <= u < |c'| && c'[u].link.Next? ensures u in list' {
      InTail(list, u);
    }
  }

  lemma InTail(list: seq<nat>, u: nat)
    requires u in list && u != list[0]
    ensures u in list[1..]
  {
    var i :| 0 <= i < |list| && list[i] == u;
    assert list[1..][i - 1] == u;
  }

  // ---------------------------------------------------------------- heap entries

  lemma TalliedEntry(heap: seq<nat>, queued: seq<nat>, i: nat)
    requires Tallied(heap, queued) && i < |heap|
    ensures heap[i] < |queued| && queued[heap[i]] > 0
  {
    assert heap[i] in multiset(heap);
  }

  /** Taking one entry out of the heap. */
  lemma EntryTaken(heap: seq<nat>, queued: seq<nat>, t: nat, heap': seq<nat>)
    requires Tallied(heap, queued) && t < |queued| && queued[t] == 1
    requires multiset(heap') == multiset(heap) - multiset{t}
    ensures Tallied(heap', queued[t := 0])
  {
    forall i | 0 <= i < |heap'| ensures heap'[i] < |queued| {
      assert heap'[i] in multiset(heap');
      assert heap'[i] in multiset(heap);
      assert heap'[i] in heap;
    }
  }

  lemma EntryPut(heap: seq<nat>, queued: seq<nat>, t: nat, heap': seq<nat>)
    requires Tallied(heap, queued) && t < |queued| && queued[t] == 0
    requires multiset(heap') == multiset(heap) + multiset{t}
    ensures Tallied(heap', queued[t := 1])
  {
    forall i | 0 <= i < |heap'| ensures heap'[i] < |queued| {
      assert heap'[i] in multiset(heap');
      assert heap'[i] in heap || heap'[i] == t;
    }
  }

  lemma EntriesMoved(heap: seq<nat>, queued: seq<nat>, heap': seq<nat>)
    requires Tallied(heap, queued) && multiset(heap') == multiset(heap)
    ensures Tallied(heap', queued) && |heap'| == |heap|
  {
    forall i | 0 <= i < |heap'| ensures heap'[i] < |queued| {
      assert heap'[i] in multiset(heap');
      assert heap'[i] in heap;
    }
    assert |multiset(heap)| == |heap| && |multiset(heap')| == |heap'|;
  }

  lemma StaleWithout(c: seq<Cell>, queued: seq<nat>, t: nat)
    requires |queued| == |c| && t < |c| && queued[t] > 0
    ensures |Stale(c, queued[t := 0])| == |Stale(c, queued)| - if c[t].slot.None? then 1 else 0
  {
    assert Stale(c, queued[t := 0]) == Stale(c, queued) - {t};
  }

  /** When every heap entry is pending, none is stale. */
  lemma NothingStale(c: seq<Cell>, heap: seq<nat>, queued: seq<nat>)
    requires Tallied(heap, queued) && |queued| == |c|
    requires forall k :: 0 <= k < |heap| ==> c[heap[k]].slot.Some?
    ensures Stale(c, queued) == {}
  {
    forall t | 0 <= t < |c| && queued[t] > 0 ensures c[t].slot.Some? {
      assert t in multiset(heap);
      assert t in heap;
    }
  }

  // ---------------------------------------------------------------- counting

  /** Every heap entry is pending or stale. */
  lemma HeapCount(c: seq<Cell>, heap: seq<nat>, h: Handles)
    requires Owned(c, h) && Tallied(heap, h.queued)
    ensures |heap| == |PendingIn(c, h.queued)| + |Stale(c, h.queued)|
  {
    var all := set t | 0 <= t < |c| && h.queued[t] > 0;
    forall t | 0 <= t < |c| ensures h.queued[t] <= 1 {
      assert CellOk(c[t], h.users[t], h.queued[t], h.held[t]);
    }
    DistinctCount(heap, h.queued, all);
    assert all == PendingIn(c, h.queued) + Stale(c, h.queued);
    assert PendingIn(c, h.queued) !! Stale(c, h.queued);
  }

  lemma {:induction false} DistinctCount(heap: seq<nat>, queued: seq<nat>, all: set<nat>)
    requires Tallied(heap, queued) && (forall t :: 0 <= t < |queued| ==> queued[t] <= 1)
    requires forall t :: t in all <==> 0 <= t < |queued| && queued[t] > 0
    ensures |all| == |heap|
  {
    if heap == [] {
      assert all == {};
    } else {
      var init, last := heap[..|heap| - 1], heap[|heap| - 1];
      assert heap == init + [last];
      TalliedEntry(heap, queued, |heap| - 1);
      EntryTaken(heap, queued, last, init);
      DistinctCount(init, queued[last := 0], all - {last});
    }
  }

  // ---------------------------------------------------------------- new timers

  function Zeros(n: nat): (z: seq<nat>)
    ensures |z| == n && forall i :: 0 <= i < n ==> z[i] == 0
  {
    seq(n, _ => 0)
  }

  function Blank(): Cell {
    Cell(Owner, 0, 0, 0, 0, None)
  }

  lemma ChainExtended(c: seq<Cell>, free: Option<nat>, list: seq<nat>, n: nat)
    requires Chain(c, free, list)
    ensures Chain(c + seq(n, _ => Blank()), free, list)
  {
    var c' := c + seq(n, _ => Blank());
    forall i | 0 <= i < |list| ensures list[i] < |c'| && Linked(c', list, i) {
      assert Linked(c, list, i);
    }
  }

  /** Cell `t` is set aside: in use by nobody, everything else as it was, and any new cells unused. */
  ghost predicate SetAside(c: seq<Cell>, h: Handles, t: nat, c': seq<Cell>, h': Handles) {
    && |c| <= |c'| && t < |c'| && |c'| == |h'.users| == |h'.queued| == |h'.held|
    && |c| == |h.users| == |h.queued| == |h.held|
    && (t < |c| ==> c[t].slot.None? && h.users[t] == 0 && h.queued[t] == 0 && h.held[t] == 0)
    && (forall u :: 0 <= u < |c| && u != t ==> SameCell(c, h, u, c', h'))
    && (forall u :: |c| <= u < |c'| && u != t ==> Unused(c', h', u))
    && h'.users[t] == 0 && h'.queued[t] == 0 && h'.held[t] == 0
  }

  ghost predicate SameCell(c: seq<Cell>, h: Handles, u: nat, c': seq<Cell>, h': Handles)
    requires |c| == |h.users| == |h.queued| == |h.held| && u < |c|
    requires |c'| == |h'.users| == |h'.queued| == |h'.held| && u < |c'|
  {
    c'[u] == c[u] && h'.users[u] == h.users[u] && h'.queued[u] == h.queued[u] && h'.held[u] == h.held[u]
  }

  ghost predicate Unused(c: seq<Cell>, h: Handles, u: nat)
    requires |c| == |h.users| == |h.queued| == |h.held| && u < |c|
  {
    c[u].link.Next? && CellOk(c[u], h.users[u], h.queued[u], h.held[u])
  }

  /** A new timer, its handles counted: its user's and the heap's. */
  function NewCell(id: nat, e: Entry): Cell {
    Cell(Owner, 2, id, e.expiry, e.interval, Some(e.handler))
  }

  function NewHandles(h: Handles, t: nat): Handles
    requires t < |h.users| && t < |h.queued|
  {
    h.(users := h.users[t := 1], queued := h.queued[t := 1])
  }

  lemma AsideFacts(c: seq<Cell>, h: Handles, t: nat, c1: seq<Cell>, h1: Handles)
    requires SetAside(c, h, t, c1, h1)
    ensures forall u :: 0 <= u < |c| && u != t ==> c1[u] == c[u] && h1.queued[u] == h.queued[u] && h1.held[u] == h.held[u]
    ensures forall u :: |c| <= u < |c1| && u != t ==> c1[u].slot.None? && h1.queued[u] == 0
  {
    forall u | 0 <= u < |c| && u != t ensures c1[u] == c[u] && h1.queued[u] == h.queued[u] && h1.held[u] == h.held[u] {
      assert SameCell(c, h, u, c1, h1);
    }
    forall u | |c| <= u < |c1| && u != t ensures c1[u].slot.None? && h1.queued[u] == 0 {
      assert Unused(c1, h1, u);
    }
  }

  lemma AsideRoom(c: seq<Cell>, h: Handles, t: nat, c1: seq<Cell>, h1: Handles)
    requires SetAside(c, h, t, c1, h1)
    ensures t < |c1| == |h1.users| == |h1.queued| == |h1.held| && |c| == |h.held| <= |c1|
    ensures h1.queued[t] == 0 && forall u :: 0 <= u < |c| ==> h1.held[u] == h.held[u]
    ensures forall u :: |c| <= u < |c1| ==> h1.held[u] == 0
    ensures forall u :: 0 <= u < |c| && c[u].slot.Some? ==> c1[u] == c[u] && u != t
  {
    AsideFacts(c, h, t, c1, h1);
    forall u | |c| <= u < |c1| ensures h1.held[u] == 0 {
      assert u == t || Unused(c1, h1, u);
    }
  }

  lemma InsertOwned(c: seq<Cell>, h: Handles, t: nat, c1: seq<Cell>, h1: Handles, id: nat, e: Entry)
    requires Owned(c, h) && SetAside(c, h, t, c1, h1)
    ensures Owned(c1[t := NewCell(id, e)], NewHandles(h1, t))
  {
    var c', h' := c1[t := NewCell(id, e)], NewHandles(h1, t);
    forall u | 0 <= u < |c'| ensures CellOk(c'[u], h'.users[u], h'.queued[u], h'.held[u]) {
      if u != t {
        if u < |c| {
          assert CellOk(c[u], h.users[u], h.queued[u], h.held[u]) && SameCell(c, h, u, c1, h1);
        } else {
          assert Unused(c1, h1, u);
        }
      }
    }
  }

  lemma InsertLogged(c: seq<Cell>, h: Handles, cellOf: seq<nat>, log: seq<Event>, t: nat, c1: seq<Cell>, h1: Handles, e: Entry)
    requires Owned(c, h) && SetAside(c, h, t, c1, h1) && LoggedAs(c, h.queued, cellOf, log)
    ensures var c', h' := c1[t := NewCell(|cellOf| + 1, e)], NewHandles(h1, t);
            LoggedAs(c', h'.queued, cellOf + [t], log + [Inserted(e)])
    ensures SelfCancels(log + [Inserted(e)]) == SelfCancels(log)
  {
    hide Legal, Replay, SelfCancels, ArmedBy, Placed;
    ReplayNext(log, Inserted(e));
    SelfCancelsNext(log, Inserted(e));
    InsertArmed(c, h, cellOf, Replay(log).armed, t, c1, h1, e);
    InsertPlaced(c, h, Replay(log).firing, t, c1, h1, |cellOf| + 1, e);
  }

  lemma InsertArmed(c: seq<Cell>, h: Handles, cellOf: seq<nat>, armed: seq<Option<Entry>>, t: nat, c1: seq<Cell>,
                    h1: Handles, e: Entry)
    requires SetAside(c, h, t, c1, h1) && ArmedBy(c, cellOf, armed)
    ensures |armed| == |cellOf| && ArmedBy(c1[t := NewCell(|cellOf| + 1, e)], cellOf + [t], armed + [Some(e)])
  {
    AsideFacts(c, h, t, c1, h1);
    var c', of', armed' := c1[t := NewCell(|cellOf| + 1, e)], cellOf + [t], armed + [Some(e)];
    forall u | 0 <= u < |c'| && c'[u].slot.Some? ensures Holds(c'[u], u, of', armed') {
      if u != t {
        assert Holds(c[u], u, cellOf, armed);
      }
    }
    forall i | 0 <= i < |armed'| && armed'[i].Some? ensures of'[i] < |c'| && HeldIn(c'[of'[i]], i + 1) {
      if i < |armed| {
        assert HeldIn(c[cellOf[i]], i + 1);
      }
    }
  }

  lemma InsertPlaced(c: seq<Cell>, h: Handles, firing: Option<nat>, t: nat, c1: seq<Cell>, h1: Handles, id: nat, e: Entry)
    requires SetAside(c, h, t, c1, h1) && Placed(c, h.queued, firing)
    ensures Placed(c1[t := NewCell(id, e)], NewHandles(h1, t).queued, firing)
  {
    AsideFacts(c, h, t, c1, h1);
    var c', q := c1[t := NewCell(id, e)], NewHandles(h1, t).queued;
  }

  lemma InsertOutside(c: seq<Cell>, h: Handles, log: seq<Event>, t: nat, c1: seq<Cell>, h1: Handles, id: nat, e: Entry)
    requires SetAside(c, h, t, c1, h1) && Legal(log) && |Replay(log).armed| < id && Outside(c, h.queued, Replay(log).firing)
    ensures Outside(c1[t := NewCell(id, e)], NewHandles(h1, t).queued, Replay(log + [Inserted(e)]).firing)
  {
    hide Legal, Replay;
    AsideFacts(c, h, t, c1, h1);
    FiringKnown(log);
    ReplayNext(log, Inserted(e));
  }

  lemma InsertStale(c: seq<Cell>, h: Handles, t: nat, c1: seq<Cell>, h1: Handles, id: nat, e: Entry)
    requires SetAside(c, h, t, c1, h1)
    ensures Stale(c1[t := NewCell(id, e)], NewHandles(h1, t).queued) == Stale(c, h.queued)
  {
    AsideFacts(c, h, t, c1, h1);
    var c', q := c1[t := NewCell(id, e)], NewHandles(h1, t).queued;
  }

  /** The heap so far is not disturbed, and its tally extends to the new cells. */
  lemma InsertHeap(c: seq<Cell>, h: Handles, heap: seq<nat>, t: nat, c1: seq<Cell>, h1: Handles, id: nat, e: Entry)
    requires SetAside(c, h, t, c1, h1) && IsHeap(heap, c) && Tallied(heap, h.queued)
    ensures IsHeap(heap, c1[t := NewCell(id, e)]) && Tallied(heap, h1.queued)
  {
    AsideFacts(c, h, t, c1, h1);
    var c' := c1[t := NewCell(id, e)];
    forall i | 0 <= i < |heap| ensures heap[i] < |c| && c'[heap[i]] == c[heap[i]] {
      TalliedEntry(heap, h.queued, i);
    }
    forall i | 0 < i < |heap| ensures Under(heap, c', i) {
      assert Under(heap, c, i);
    }
    forall u | 0 <= u < |h1.queued| ensures multiset(heap)[u] == h1.queued[u] {
      if u >= |c| {
        assert u !in heap;
      }
    }
  }

  lemma InsertSteady(c: seq<Cell>, h: Handles, t: nat, c1: seq<Cell>, h1: Handles, id: nat, e: Entry)
    requires SetAside(c, h, t, c1, h1)
    ensures Steady(c, h, c1[t := NewCell(id, e)], NewHandles(h1, t))
  {
    AsideFacts(c, h, t, c1, h1);
    var c', h' := c1[t := NewCell(id, e)], NewHandles(h1, t);
    forall u | 0 <= u < |c| && h'.held[u] > 0 ensures Kept(c[u], h.queued[u], c'[u], h'.queued[u]) {
      assert u != t;
    }
  }

  // ---------------------------------------------------------------- firing

  /** The front of the heap may fire: nothing armed expires earlier. */
  lemma FiringLegal(c: seq<Cell>, h: Handles, heap: seq<nat>, cellOf: seq<nat>, log: seq<Event>, now: int)
    requires Owned(c, h) && Tallied(heap, h.queued) && IsHeap(heap, c) && LoggedAs(c, h.queued, cellOf, log)
    requires heap != [] && c[heap[0]].slot.Some? && c[heap[0]].expiry <= now && Replay(log).firing.None?
    ensures CanHappen(Replay(log), Fired(c[heap[0]].id, now))
  {
    hide Replay, Legal;
    var t, front := Replay(log), heap[0];
    assert Holds(c[front], front, cellOf, t.armed);
    forall other | IsArmed(t, other) ensures Expiry(t, c[front].id) <= Expiry(t, other) {
      var u := cellOf[other - 1];
      assert HeldIn(c[u], other) && Holds(c[u], u, cellOf, t.armed);
      EarliestInHeap(c, heap, h.queued, u);
    }
  }

  lemma EarliestInHeap(c: seq<Cell>, heap: seq<nat>, queued: seq<nat>, u: nat)
    requires Tallied(heap, queued) && IsHeap(heap, c) && |queued| == |c| && u < |c| && queued[u] > 0
    ensures heap != [] && c[heap[0]].expiry <= c[u].expiry
  {
    assert u in multiset(heap);
    assert u in heap;
    var i: nat :| i < |heap| && heap[i] == u;
    FrontIsEarliest(heap, c, i);
  }

  lemma FiredLogged(c: seq<Cell>, queued: seq<nat>, cellOf: seq<nat>, log: seq<Event>, id: nat, now: int)
    requires LoggedAs(c, queued, cellOf, log) && CanHappen(Replay(log), Fired(id, now))
    ensures LoggedAs(c, queued, cellOf, log + [Fired(id, now)]) && Replay(log + [Fired(id, now)]).firing == Some(id)
    ensures SelfCancels(log + [Fired(id, now)]) == SelfCancels(log)
  {
    hide Legal, ArmedBy;
    ReplayNext(log, Fired(id, now));
    SelfCancelsNext(log, Fired(id, now));
  }

  /** Out of the heap, the cell of the timer that fires is the only one that carries its id. */
  lemma PoppedOutside(c: seq<Cell>, cellOf: seq<nat>, queued: seq<nat>, log: seq<Event>, t: nat)
    requires LoggedAs(c, queued, cellOf, log) && t < |c| && c[t].slot.Some? && Replay(log).firing == Some(c[t].id)
    ensures Outside(c, queued[t := 0], Replay(log).firing)
  {
    hide Legal, Replay;
    assert Holds(c[t], t, cellOf, Replay(log).armed);
    forall u | 0 <= u < |c| && c[u].slot.Some? && c[u].id == c[t].id ensures u == t {
      assert Holds(c[u], u, cellOf, Replay(log).armed);
    }
  }

  /** After the callback: what becomes of the cell of the timer that fired. */
  ghost predicate SettleStep(c: seq<Cell>, t: nat, now: int, c': seq<Cell>, queued': seq<nat>)
    requires t < |c|
  {
    && SameButAt(c, t, c') && |queued'| == |c| && c'[t].id == c[t].id && c'[t].interval == c[t].interval
    && if c[t].slot.Some? && c[t].interval > 0
       then c'[t].slot == c[t].slot && queued'[t] > 0
            && c'[t].expiry == Rescheduled(Entry(c[t].expiry, c[t].interval, c[t].slot.value), now).expiry
       else c'[t].slot.None? && queued'[t] == 0
  }

  lemma SettleLogged(c: seq<Cell>, queued: seq<nat>, cellOf: seq<nat>, log: seq<Event>, t: nat, id: nat, now: int,
                     c': seq<Cell>, queued': seq<nat>)
    requires LoggedAs(c, queued, cellOf, log) && t < |c| && SettleStep(c, t, now, c', queued')
    requires forall u :: 0 <= u < |c| && u != t ==> queued'[u] == queued[u]
    requires queued[t] == 0 && c[t].id == id && 1 <= id <= |cellOf| && cellOf[id - 1] == t && Replay(log).firing == Some(id)
    ensures LoggedAs(c', queued', cellOf, log + [Settled(id, now)]) && Replay(log + [Settled(id, now)]).firing.None?
    ensures SelfCancels(log + [Settled(id, now)]) == SelfCancels(log)
    ensures Stale(c', queued') == Stale(c, queued)
  {
    hide Legal, Replay, SelfCancels;
    ReplayNext(log, Settled(id, now));
    SelfCancelsNext(log, Settled(id, now));
    SettleArmed(c, cellOf, Replay(log), t, id, now, c', queued');
    forall u | 0 <= u < |c'| && c'[u].slot.Some? ensures queued'[u] > 0 {
      if u != t {
        assert Holds(c[u], u, cellOf, Replay(log).armed);
      }
    }
    assert forall u :: 0 <= u < |c| && u != t ==> c'[u] == c[u];
  }

  lemma SettleArmed(c: seq<Cell>, cellOf: seq<nat>, before: Timers, t: nat, id: nat, now: int, c': seq<Cell>, queued': seq<nat>)
    requires ArmedBy(c, cellOf, before.armed) && t < |c| && SettleStep(c, t, now, c', queued')
    requires c[t].id == id && 1 <= id <= |cellOf| && cellOf[id - 1] == t
    ensures ArmedBy(c', cellOf, After(before, Settled(id, now)).armed)
  {
    var armed, armed' := before.armed, After(before, Settled(id, now)).armed;
    if c[t].slot.Some? {
      assert Holds(c[t], t, cellOf, armed);
    }
    forall u | 0 <= u < |c'| && c'[u].slot.Some? ensures Holds(c'[u], u, cellOf, armed') {
      if u != t {
        assert Holds(c[u], u, cellOf, armed);
      }
    }
    forall i | 0 <= i < |armed'| && armed'[i].Some? ensures cellOf[i] < |c'| && HeldIn(c'[cellOf[i]], i + 1) {
      assert HeldIn(c[cellOf[i]], i + 1);
    }
  }

  /** The heap does not see the expiry of a timer that is not in it. */
  lemma OutsideHeap(c: seq<Cell>, heap: seq<nat>, queued: seq<nat>, t: nat, c': seq<Cell>)
    requires IsHeap(heap, c) && Tallied(heap, queued) && |queued| == |c| && SameButAt(c, t, c') && queued[t] == 0
    ensures IsHeap(heap, c')
  {
    forall i | 0 <= i < |heap| ensures heap[i] != t {
      TalliedEntry(heap, queued, i);
    }
    forall i | 0 < i < |heap| ensures Under(heap, c', i) {
      assert Under(heap, c, i);
    }
  }
}
