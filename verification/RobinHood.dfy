/**
 The open-addressing hash table, in the form of its source: two arrays shifted in place, info bytes
 truncated to eight bits on every store, and growth by halving info bytes or rehashing.
 `model` is the mathematical map the table stands for.
 */
module RobinHood {
  import opened Bits
  import opened RobinHoodLayout
  import opened RobinHoodWords
  import opened RobinHoodGrowth

  const MAX_ATTEMPTS: nat := 256

  /** `static_cast<uint8_t>` */
  function ToByte(x: nat): (b: nat)
    ensures b < 256 && (x < 256 ==> b == x)
  {
    x % 256
  }

  /** The source's four outcomes, and the exception a rehash throws when distances no longer fit a byte. */
  datatype InsertionState = OverflowError | KeyFound | NewNode | OverwriteNode | RehashThrew

  /** A zero info byte marks exactly the empty slots. */
  ghost predicate Occupied<K, V>(info: seq<nat>, nodes: seq<Node<K, V>>)
    requires |nodes| <= |info|
  {
    forall i :: 0 <= i < |nodes| ==> (info[i] != 0 <==> nodes[i].Node?)
  }

  /** The arrays spell out `m`, wherever they keep its entries. */
  ghost predicate Entries<K, V>(info: seq<nat>, nodes: seq<Node<K, V>>, m: map<K, V>) {
    |nodes| <= |info| && Occupied(info, nodes) && Distinct(nodes) && Represents(nodes, m)
  }

  lemma LayoutEntries<K, V>(s: Shape<K>, info: seq<nat>, nodes: seq<Node<K, V>>, m: map<K, V>)
    requires Layout(s, info, nodes) && Represents(nodes, m)
    ensures Entries(info, nodes, m)
  {
    forall i | 0 <= i < s.n ensures info[i] != 0 <==> nodes[i].Node? {
      assert EntryOk(s, info[i], nodes[i], i);
    }
  }

  ghost predicate HasBefore<K, V>(nodes: seq<Node<K, V>>, i: nat, k: K) {
    exists j :: 0 <= j < i && j < |nodes| && nodes[j].Node? && nodes[j].key == k
  }

  /** `m` is the part of `all` found in the first `i` nodes. */
  ghost predicate MovedUpTo<K, V>(nodes: seq<Node<K, V>>, all: map<K, V>, i: nat, m: map<K, V>) {
    && i <= |nodes|
    && (forall k :: k in m ==> k in all && m[k] == all[k] && HasBefore(nodes, i, k))
    && (forall j :: 0 <= j < i && nodes[j].Node? ==> nodes[j].key in m)
  }

  /** At least 127 of the entries of `all` were moved, but not every one. */
  ghost predicate LostSome<K, V>(all: map<K, V>, m: map<K, V>) {
    && 127 <= |m.Keys| < |all.Keys|
    && forall k :: k in m ==> k in all && m[k] == all[k]
  }

  lemma MovedNone<K, V>(nodes: seq<Node<K, V>>, all: map<K, V>)
    ensures MovedUpTo(nodes, all, 0, map[])
  {
  }

  /** The next node's key is new, so fewer keys were moved than there are in all. */
  lemma MovedNext<K, V>(nodes: seq<Node<K, V>>, all: map<K, V>, i: nat, m: map<K, V>)
    requires MovedUpTo(nodes, all, i, m) && i < |nodes| && nodes[i].Node?
    requires Distinct(nodes) && Represents(nodes, all)
    ensures nodes[i].key !in m && |m.Keys| < |all.Keys|
    ensures |m.Keys| >= 127 ==> LostSome(all, m)
    ensures MovedUpTo(nodes, all, i + 1, m[nodes[i].key := nodes[i].val])
  {
    var k := nodes[i].key;
    assert k !in m && k in all && all[k] == nodes[i].val;
    SubsetCount(m.Keys, all.Keys - {k});
    MovedExtends(nodes, all, i, m);
  }

  /** The keys moved are those found so far. */
  lemma MovedKeys<K, V>(nodes: seq<Node<K, V>>, all: map<K, V>, i: nat, m: map<K, V>)
    requires MovedUpTo(nodes, all, i, m)
    ensures m.Keys == KeysIn(nodes, 0, i)
  {
    forall k | k in m.Keys ensures k in KeysIn(nodes, 0, i) {
      assert HasBefore(nodes, i, k);
    }
  }

  lemma CrowdedAlike<K>(s: Shape<K>, s': Shape<K>, keys: set<K>)
    requires s'.mask == s.mask && s'.hasher == s.hasher && s'.mult == s.mult
    ensures Crowded(s, keys) <==> Crowded(s', keys)
  {
    if Crowded(s, keys) {
      CrowdedMonotone(s, s', keys, keys);
    }
    if Crowded(s', keys) {
      CrowdedMonotone(s', s, keys, keys);
    }
  }

  lemma MovedExtends<K, V>(nodes: seq<Node<K, V>>, all: map<K, V>, i: nat, m: map<K, V>)
    requires MovedUpTo(nodes, all, i, m) && i < |nodes| && nodes[i].Node?
    requires nodes[i].key in all && all[nodes[i].key] == nodes[i].val
    ensures MovedUpTo(nodes, all, i + 1, m[nodes[i].key := nodes[i].val])
  {
    assert HasBefore(nodes, i + 1, nodes[i].key);
    assert forall x :: HasBefore(nodes, i, x) ==> HasBefore(nodes, i + 1, x);
  }

  lemma MovedSkip<K, V>(nodes: seq<Node<K, V>>, all: map<K, V>, i: nat, m: map<K, V>)
    requires MovedUpTo(nodes, all, i, m) && i < |nodes| && !nodes[i].Node?
    ensures MovedUpTo(nodes, all, i + 1, m)
  {
    assert forall x :: HasBefore(nodes, i, x) ==> HasBefore(nodes, i + 1, x);
  }

  lemma MovedAll<K, V>(info: seq<nat>, nodes: seq<Node<K, V>>, all: map<K, V>, m: map<K, V>)
    requires MovedUpTo(nodes, all, |nodes|, m) && Entries(info, nodes, all)
    ensures m == all
  {
    forall k | k in all ensures k in m {
      var j :| 0 <= j < |nodes| && nodes[j].Node? && nodes[j].key == k;
    }
  }

  /** A new value for a stored key changes only what the key maps to. */
  lemma AssignKeepsLayout<K, V>(s: Shape<K>, info: seq<nat>, nodes: seq<Node<K, V>>, i: nat, val: V, m: map<K, V>)
    requires Layout(s, info, nodes) && Represents(nodes, m) && i < |nodes| && nodes[i].Node?
    ensures nodes[i].key in m
    ensures Layout(s, info, nodes[i := Node(nodes[i].key, val)])
    ensures Represents(nodes[i := Node(nodes[i].key, val)], m[nodes[i].key := val])
  {
    var k := nodes[i].key;
    var nodes' := nodes[i := Node(k, val)];
    forall j | 0 <= j < s.n ensures EntryOk(s, info[j], nodes'[j], j) {
      assert EntryOk(s, info[j], nodes[j], j);
    }
    forall x | x in m[k := val] ensures Has(nodes', x) {
      if x == k {
        assert nodes'[i].key == x;
      } else {
        var j :| 0 <= j < |nodes| && nodes[j].Node? && nodes[j].key == x;
        assert nodes'[j] == nodes[j];
      }
    }
    forall a, b | 0 <= a < b < |nodes'| && nodes'[a].Node? && nodes'[b].Node? ensures nodes'[a].key != nodes'[b].key {
      assert nodes'[a].key == nodes[a].key && nodes'[b].key == nodes[b].key;
    }
  }

  /** The shifted arrays, with the new node in its slot, lay out the map with the new key. */
  lemma SpotOpened<K, V>(s: Shape<K>, info: seq<nat>, nodes: seq<Node<K, V>>, ins: nat, e: nat, node: Node<K, V>, byte: nat,
                         m: map<K, V>, roomy: bool)
    requires Layout(s, info, nodes) && Represents(nodes, m) && Roomy(s, info)
    requires node.Node? && node.key !in m && InsertionPoint(s, info, node.key, ins)
    requires ins <= e < s.n && info[e] == 0 && (forall j :: ins <= j < e ==> info[j] != 0)
    requires byte == Probe(s, node.key, ins) <= 0xFF
    requires var info' := ShiftedInfo(info, ins, e, byte, s.inc);
             roomy ==> forall j :: ins <= j <= e ==> info'[j] + s.inc <= 0xFF
    ensures var info', nodes' := ShiftedInfo(info, ins, e, byte, s.inc), ShiftedNodes(nodes, ins, e, node);
            Layout(s, info', nodes') && Represents(nodes', m[node.key := node.val]) && (roomy ==> Roomy(s, info'))
  {
    var info', nodes' := ShiftedInfo(info, ins, e, byte, s.inc), ShiftedNodes(nodes, ins, e, node);
    ShiftedIsUp(s, info, nodes, ins, e, byte, node);
    hide ShiftedInfo, ShiftedNodes, ShiftedUp, Layout;
    assert !Has(nodes, node.key);
    InsertKeepsLayout(s, info, nodes, ins, e, node, info', nodes', m);
  }

  lemma DoublePower(n: nat)
    requires PowerOfTwo(n)
    ensures PowerOfTwo(n * 2)
  {
    var k: nat :| n == Pow2(k);
    assert n * 2 == Pow2(k + 1);
  }

  /** Masks in terms of remainders. */
  lemma KeyBits(h: nat, mask: nat)
    ensures BitAnd(h, 31) == h % 32
    ensures PowerOfTwo(mask + 1) ==> BitAnd(h / 32, mask) == h / 32 % (mask + 1)
  {
    assert Pow2(5) == 32;
    AndMask(h, 5);
    if PowerOfTwo(mask + 1) {
      var k: nat :| mask + 1 == Pow2(k);
      AndMask(h / 32, k);
    }
  }

  class Table<!K(==), V> {
    const hasher: (nat, K) -> nat
    const loadFactor100: nat
    var info: array<nat>
    var keyVals: array<Node<K, V>>
    var numElements: nat
    var mask: nat
    var maxNumElementsAllowed: nat
    var infoInc: nat
    var infoHashShift: nat
    var hashMultiplier: nat
    ghost var model: map<K, V>
    /** How many entries the current size allows. */
    ghost var limit: nat

    ghost function TheRules(): Rules<K> {
      Rules(hasher, loadFactor100)
    }

    /** All that the table holds. */
    ghost function Now(): Image<K, V>
      reads this, info, keyVals
    {
      Image(info[..], keyVals[..], numElements, mask, maxNumElementsAllowed, infoInc, infoHashShift, hashMultiplier)
    }

    function CalcMaxNumElementsAllowed(maxElements: nat): (n: nat)
      ensures n == Allowance(TheRules(), maxElements)
    {
      Times(maxElements, loadFactor100) / 100
    }

    /** Home slots plus an overflow tail, so that probing never wraps around. */
    function CalcNumElementsWithBuffer(n: nat): nat {
      var allowed := CalcMaxNumElementsAllowed(n);
      n + if allowed < 0xFF then allowed else 0xFF
    }

    ghost function ShapeNow(): Shape<K>
      reads `keyVals, `mask, `infoInc, `infoHashShift, `hashMultiplier
    {
      Shape(keyVals.Length, mask, infoInc, infoHashShift, hasher, hashMultiplier)
    }

    /** Nothing allocated yet: the info bytes read are those of the zero mask. */
    ghost predicate Unallocated()
      reads this, info
    {
      && mask == 0 && keyVals.Length == 0 && info.Length == 8 && (forall i :: 0 <= i < 8 ==> info[i] == 0)
      && numElements == 0 && maxNumElementsAllowed == 0 && model == map[]
      && infoInc == INITIAL_INFO_INC && infoHashShift == 0
    }

    /** The arrays lay out exactly the entries of `m`. */
    ghost predicate Holds(m: map<K, V>)
      reads `info, `keyVals, `mask, `infoInc, `infoHashShift, `hashMultiplier, `maxNumElementsAllowed, `limit
      reads info, keyVals
    {
      && mask + 1 >= INITIAL_NUM_ELEMENTS
      && keyVals.Length == mask + 1 + (if limit < 0xFF then limit else 0xFF)
      && Layout(ShapeNow(), info[..], keyVals[..])
      && Represents(keyVals[..], m)
      && (maxNumElementsAllowed == 0 || maxNumElementsAllowed == limit)
      && (maxNumElementsAllowed > 0 ==> Roomy(ShapeNow(), info[..]))
    }

    ghost predicate Allocated()
      reads this, info, keyVals
    {
      Holds(model) && numElements == |model.Keys| <= limit
    }

    ghost predicate Sized()
      reads `mask, `limit
    {
      10 < loadFactor100 < 100 && limit == CalcMaxNumElementsAllowed(mask + 1) && PowerOfTwo(mask + 1)
    }

    ghost predicate Valid()
      reads this, info, keyVals
    {
      Sized() && (if mask == 0 then Unallocated() else Allocated())
    }

    constructor (hasher: (nat, K) -> nat, loadFactor100: nat)
      requires 10 < loadFactor100 < 100
      ensures Valid() && model == map[] && fresh(info) && fresh(keyVals)
      ensures mask == 0 && this.hasher == hasher && this.loadFactor100 == loadFactor100
    {
      this.hasher, this.loadFactor100 := hasher, loadFactor100;
      info := new nat[8](_ => 0);
      keyVals := new Node<K, V>[0];
      numElements, mask, maxNumElementsAllowed := 0, 0, 0;
      infoInc, infoHashShift, hashMultiplier := INITIAL_INFO_INC, 0, 0xc4ceb9fe1a85ec53;
      model := map[];
      limit := Times(1, loadFactor100) / 100;
      new;
      assert mask + 1 == Pow2(0);
    }

    /**
     The slot a probe for `key` starts at, and the info byte it starts with: of the hash, the five lowest bits, less
     those given up, go to the info byte, and the bits above them choose one of the home slots.
     */
    function KeyToIdx(key: K): (r: (nat, nat))
      reads this
      ensures PowerOfTwo(mask + 1) ==> r.0 == hasher(hashMultiplier, key) / 32 % (mask + 1)
      ensures r.1 == infoInc + hasher(hashMultiplier, key) % 32 / Pow2(infoHashShift)
      ensures r.0 <= mask
    {
      var h := hasher(hashMultiplier, key);
      AndBelow(h / 32, mask);
      KeyBits(h, mask);
      (BitAnd(h / 32, mask), infoInc + Shr(BitAnd(h, 31), infoHashShift))
    }

    /** The last info byte any probe looks at: one past the sentinel, or the third byte of the zero mask. */
    ghost function LastRead(): nat
      reads this
    {
      if mask == 0 then 2 else keyVals.Length + 1
    }

    /** A probe for `key` stands at slot `idx`, and the key is in no earlier slot. */
    ghost predicate Probing(key: K, idx: nat, probe: nat)
      reads this, info, keyVals
    {
      && Home(ShapeNow(), key) <= idx <= LastRead()
      && probe == Probe(ShapeNow(), key, idx)
      && NotBefore(ShapeNow(), keyVals[..], key, idx)
    }

    /** The slot compared with: same info byte, same key. */
    ghost predicate Match(key: K, idx: nat, probe: nat)
      reads this, info, keyVals
    {
      idx < info.Length && probe == info[idx] && idx < keyVals.Length && keyVals[idx].Node? && keyVals[idx].key == key
    }

    lemma ProbeStart(key: K)
      requires Valid()
      ensures Probing(key, KeyToIdx(key).0, KeyToIdx(key).1)
      ensures mask > 0 ==> KeyToIdx(key).0 < keyVals.Length
    {
      if mask > 0 {
        NotBeforeHome(ShapeNow(), info[..], keyVals[..], key);
      }
    }

    /** What a probe reads is in bounds, and an equal info byte means an occupied slot. */
    lemma ProbeReads(key: K, idx: nat, probe: nat)
      requires Valid() && Probing(key, idx, probe)
      ensures idx < info.Length
      ensures probe <= info[idx] ==> idx < keyVals.Length && keyVals[idx].Node?
    {
      if mask == 0 {
        InfoGrows(infoInc, HashBits(ShapeNow(), key), idx - Home(ShapeNow(), key));
      } else {
        ProbeStopsAtEnd(ShapeNow(), info[..], key, idx);
        HomeOrAway(ShapeNow(), key, idx);
        if idx < keyVals.Length {
          assert EntryOk(ShapeNow(), info[..][idx], keyVals[..][idx], idx);
        }
      }
    }

    /** No match here: the probe may move on. */
    lemma ProbeNext(key: K, idx: nat, probe: nat)
      requires Valid() && Probing(key, idx, probe) && !Match(key, idx, probe) && idx < LastRead()
      ensures Probing(key, idx + 1, probe + infoInc)
    {
      if mask > 0 && idx < keyVals.Length && keyVals[idx].Node? && keyVals[idx].key == key {
        FoundByInfo(ShapeNow(), info[..], keyVals[..], key, idx);
        assert false;
      }
    }

    /** A match is the key's entry. */
    lemma MatchFinds(key: K, idx: nat, probe: nat)
      requires Valid() && Match(key, idx, probe)
      ensures key in model && keyVals[idx] == Node(key, model[key])
    {
      assert keyVals[..][idx].key in model;
    }

    /** A probe larger than the info byte it meets proves the key absent. */
    lemma ProbeMisses(key: K, idx: nat, probe: nat)
      requires Valid() && Probing(key, idx, probe) && idx < info.Length && info[idx] < probe
      ensures key !in model
    {
      if mask > 0 {
        if idx <= keyVals.Length {
          MissMeansAbsent(ShapeNow(), info[..], keyVals[..], key, idx);
        } else {
          assert !Has(keyVals[..], key);
        }
      }
    }

    /** Everything a lookup needs to know at one slot. */
    lemma ProbeAt(key: K, idx: nat, probe: nat)
      requires Valid() && Probing(key, idx, probe)
      ensures idx < info.Length
      ensures probe <= info[idx] ==> idx < keyVals.Length && keyVals[idx].Node?
      ensures Match(key, idx, probe) ==> key in model && keyVals[idx] == Node(key, model[key])
      ensures !Match(key, idx, probe) && idx < LastRead() ==> Probing(key, idx + 1, probe + infoInc)
      ensures probe > info[idx] ==> key !in model
    {
      ProbeReads(key, idx, probe);
      if Match(key, idx, probe) {
        MatchFinds(key, idx, probe);
      } else if idx < LastRead() {
        ProbeNext(key, idx, probe);
      }
      if probe > info[idx] {
        ProbeMisses(key, idx, probe);
      }
    }

    /** The index of `key`, or the one-past-the-end index when it is absent. */
    method FindIdx(key: K) returns (idx: nat)
      requires Valid()
      ensures idx <= keyVals.Length
      ensures key in model <==> idx < keyVals.Length
      ensures key in model ==> keyVals[idx] == Node(key, model[key])
    {
      var probe: nat;
      idx, probe := KeyToIdx(key).0, KeyToIdx(key).1;
      hide Allocated;
      ProbeStart(key);
      while true
        invariant Probing(key, idx, probe)
        invariant (if mask == 0 then idx == 0 else idx < keyVals.Length)
        decreases LastRead() - idx
      {
        // Unrolled twice.
        ProbeAt(key, idx, probe);
        if probe == info[idx] && keyVals[idx].key == key {
          return;
        }
        idx, probe := idx + 1, probe + infoInc;
        ProbeAt(key, idx, probe);
        if probe == info[idx] && keyVals[idx].key == key {
          return;
        }
        idx, probe := idx + 1, probe + infoInc;
        ProbeAt(key, idx, probe);
        if probe > info[idx] {
          break;
        }
      }
      idx := if mask == 0 then 0 else keyVals.Length;
    }

    /** Move the nodes of slots `[insertionIdx, startIdx)` up by one. */
    method ShiftUpNodes(startIdx: nat, insertionIdx: nat)
      requires insertionIdx < startIdx < keyVals.Length
      modifies keyVals
      ensures forall j :: 0 <= j < keyVals.Length && (j <= insertionIdx || j > startIdx) ==> keyVals[j] == old(keyVals[j])
      ensures forall j :: insertionIdx < j <= startIdx ==> keyVals[j] == old(keyVals[j - 1])
    {
      var idx := startIdx;
      keyVals[idx] := keyVals[idx - 1];
      idx := idx - 1;
      while idx != insertionIdx
        invariant insertionIdx <= idx < startIdx
        invariant forall j :: 0 <= j < keyVals.Length && (j <= idx || j > startIdx) ==> keyVals[j] == old(keyVals[j])
        invariant forall j :: idx < j <= startIdx ==> keyVals[j] == old(keyVals[j - 1])
        decreases idx
      {
        keyVals[idx] := keyVals[idx - 1];
        idx := idx - 1;
      }
    }

    /**
     Shift the run `[insertionIdx, startIdx)` up into the empty slot `startIdx`, one unit of distance further
     each; if any info byte ends with no room for another unit, insertions must make room first.
     */
    method ShiftUp(startIdx: nat, insertionIdx: nat)
      requires insertionIdx < startIdx < keyVals.Length < info.Length
      requires forall j :: insertionIdx <= j < startIdx ==> info[j] + infoInc <= 0xFF
      modifies `maxNumElementsAllowed, info, keyVals
      ensures forall j :: 0 <= j < keyVals.Length && (j <= insertionIdx || j > startIdx) ==> keyVals[j] == old(keyVals[j])
      ensures forall j :: insertionIdx < j <= startIdx ==> keyVals[j] == old(keyVals[j - 1])
      ensures forall j :: 0 <= j < info.Length && (j <= insertionIdx || j > startIdx) ==> info[j] == old(info[j])
      ensures forall j :: insertionIdx < j <= startIdx ==> info[j] == old(info[j - 1]) + infoInc
      ensures maxNumElementsAllowed == 0 || maxNumElementsAllowed == old(maxNumElementsAllowed)
      ensures maxNumElementsAllowed > 0 ==> forall j :: insertionIdx < j <= startIdx ==> info[j] + infoInc <= 0xFF
      ensures old(maxNumElementsAllowed) > 0 && maxNumElementsAllowed == 0 ==>
        exists j :: insertionIdx < j <= startIdx && info[j] + infoInc > 0xFF
    {
      hide ToByte;
      ShiftUpNodes(startIdx, insertionIdx);
      var idx := startIdx;
      ghost var tight := startIdx;
      while idx != insertionIdx
        modifies `maxNumElementsAllowed, info
        invariant insertionIdx <= idx <= startIdx
        invariant forall j :: 0 <= j < info.Length && (j <= idx || j > startIdx) ==> info[j] == old(info[j])
        invariant forall j :: idx < j <= startIdx ==> info[j] == old(info[j - 1]) + infoInc
        invariant maxNumElementsAllowed == 0 || maxNumElementsAllowed == old(maxNumElementsAllowed)
        invariant maxNumElementsAllowed > 0 ==> forall j :: idx < j <= startIdx ==> info[j] + infoInc <= 0xFF
        invariant old(maxNumElementsAllowed) > 0 && maxNumElementsAllowed == 0 ==>
          idx < tight <= startIdx && info[tight] + infoInc > 0xFF
        decreases idx
      {
        info[idx] := ToByte(info[idx - 1] + infoInc);
        if info[idx] + infoInc > 0xFF {
          maxNumElementsAllowed := 0;
          tight := idx;
        }
        idx := idx - 1;
      }
    }

    /**
     Close the gap at `start`: the displaced entries right of it each move one slot, and one unit of
     distance, closer to home, up to the first entry that is at home or the first empty slot.
     */
    method ShiftDown(start: nat) returns (ghost end: nat)
      requires start < keyVals.Length < info.Length - 1 && info[keyVals.Length] < 2 * infoInc
      requires forall j :: 0 <= j < keyVals.Length ==> info[j] <= 0xFF
      modifies info, keyVals
      ensures start <= end < keyVals.Length
      ensures forall j :: 0 <= j < info.Length && (j < start || j > end) ==> info[j] == old(info[j])
      ensures forall j :: 0 <= j < keyVals.Length && (j < start || j > end) ==> keyVals[j] == old(keyVals[j])
      ensures forall j :: start <= j < end ==> info[j] == old(info[j + 1]) - infoInc
      ensures forall j :: start <= j < end ==> keyVals[j] == old(keyVals[j + 1])
      ensures info[end] == 0 && keyVals[end] == Vacant
      ensures (forall j :: start < j <= end ==> old(info[j]) >= 2 * infoInc) && old(info[end + 1]) < 2 * infoInc
    {
      hide ToByte;
      ghost var info0, nodes0 := info[..], keyVals[..];
      var idx := start;
      while info[idx + 1] >= 2 * infoInc
        invariant start <= idx < keyVals.Length
        invariant forall j :: 0 <= j < info.Length && (j < start || j >= idx) ==> info[j] == info0[j]
        invariant forall j :: 0 <= j < keyVals.Length && (j < start || j >= idx) ==> keyVals[j] == nodes0[j]
        invariant forall j :: start <= j < idx ==> info[j] == info0[j + 1] - infoInc
        invariant forall j :: start <= j < idx ==> keyVals[j] == nodes0[j + 1]
        invariant forall j :: start < j <= idx ==> info0[j] >= 2 * infoInc
        decreases keyVals.Length - idx
      {
        info[idx] := ToByte(info[idx + 1] - infoInc);
        keyVals[idx] := keyVals[idx + 1];
        idx := idx + 1;
      }
      info[idx] := 0;
      keyVals[idx] := Vacant;
      end := idx;
    }

    method CloseGap(idx: nat)
      requires mask > 0 && Holds(model) && idx < keyVals.Length && keyVals[idx].Node?
      modifies info, keyVals
      ensures old(keyVals[idx]).key in model && Holds(model - {old(keyVals[idx]).key})
    {
      ghost var s, info0, nodes0 := ShapeNow(), info[..], keyVals[..];
      BytesFit(s, info0, nodes0);
      ghost var end := ShiftDown(idx);
      EraseKeepsLayout(s, info0, nodes0, idx, end, info[..], keyVals[..], model);
    }

    /** Remove the entry at `idx`. */
    method EraseAt(idx: nat)
      requires Valid() && idx < keyVals.Length && keyVals[idx].Node?
      modifies this, info, keyVals
      ensures Valid() && info == old(info) && keyVals == old(keyVals)
      ensures old(keyVals[idx]).key in old(model) && model == old(model) - {old(keyVals[idx]).key}
    {
      hide Holds;
      ghost var rest := model - {keyVals[idx].key};
      CloseGap(idx);
      assert |rest.Keys| == |model.Keys| - 1;
      model := rest;
      numElements := numElements - 1;
    }

    /** Remove `key` if present; the result is the number of entries removed. */
    method Erase(key: K) returns (removed: nat)
      requires Valid()
      modifies this, info, keyVals
      ensures Valid() && model == old(model) - {key}
      ensures removed == if key in old(model) then 1 else 0
      ensures info == old(info) && keyVals == old(keyVals)
    {
      hide Allocated;
      var idx: nat, probe: nat := KeyToIdx(key).0, KeyToIdx(key).1;
      ProbeStart(key);
      while true
        invariant Valid() && model == old(model) && info == old(info) && keyVals == old(keyVals)
        invariant Probing(key, idx, probe)
        invariant idx < LastRead()
        decreases LastRead() - idx
      {
        ProbeAt(key, idx, probe);
        if probe == info[idx] && keyVals[idx].key == key {
          EraseAt(idx);
          return 1;
        }
        idx, probe := idx + 1, probe + infoInc;
        ProbeAt(key, idx, probe);
        if probe > info[idx] {
          break;
        }
      }
      removed := 0;
    }

    // -------------------------------------------------------------- growing

    /** Newly allocated arrays: nothing stored, the sentinel set, no hash bits given up. */
    ghost predicate Blank()
      reads this, info, keyVals
    {
      && mask + 1 >= INITIAL_NUM_ELEMENTS && Sized()
      && keyVals.Length == mask + 1 + (if limit < 0xFF then limit else 0xFF)
      && info.Length == keyVals.Length + 8 && info[keyVals.Length] == 1
      && (forall i :: 0 <= i < info.Length && i != keyVals.Length ==> info[i] == 0)
      && (forall i :: 0 <= i < keyVals.Length ==> keyVals[i] == Vacant)
      && numElements == 0 && maxNumElementsAllowed == limit && model == map[]
      && infoInc == INITIAL_INFO_INC && infoHashShift == 0
    }

    lemma BlankIsValid()
      requires Blank()
      ensures Valid() && Justified()
    {
      hide Layout, Represents, Roomy, CalcMaxNumElementsAllowed;
      assert Units(ShapeNow()) by {
        assert Pow2(0) == 1;
      }
      EmptyLayout(ShapeNow(), info[..], keyVals[..]);
    }

    lemma BlankIsFresh()
      requires Blank()
      ensures Now() == Fresh(TheRules(), mask + 1, hashMultiplier)
    {
      hide CalcMaxNumElementsAllowed;
      var f := Fresh<K, V>(TheRules(), mask + 1, hashMultiplier);
      assert info[..] == f.info && keyVals[..] == f.nodes;
    }

    lemma InitLayout()
      requires Blank()
      ensures Valid() && Justified() && Now() == Fresh(TheRules(), mask + 1, hashMultiplier)
    {
      hide Valid, Justified, Fresh;
      BlankIsValid();
      BlankIsFresh();
    }

    /** Fresh arrays for `maxElements` home slots; everything empty, no hash bits given up. */
    method InitData(maxElements: nat)
      requires maxElements >= INITIAL_NUM_ELEMENTS && 10 < loadFactor100 < 100 && PowerOfTwo(maxElements)
      modifies this
      ensures Valid() && Justified() && model == map[] && mask == maxElements - 1
      ensures fresh(info) && fresh(keyVals) && hashMultiplier == old(hashMultiplier)
      ensures Now() == Fresh(TheRules(), maxElements, hashMultiplier)
    {
      hide Valid, CalcMaxNumElementsAllowed, Fresh, Justified, Tight, Allowance, Times, PowerOfTwo;
      numElements := 0;
      mask := maxElements - 1;
      maxNumElementsAllowed := CalcMaxNumElementsAllowed(maxElements);
      var numElementsWithBuffer := CalcNumElementsWithBuffer(maxElements);
      keyVals := new Node<K, V>[numElementsWithBuffer](_ => Vacant);
      info := new nat[numElementsWithBuffer + 8](_ => 0);
      info[numElementsWithBuffer] := 1;
      infoInc := INITIAL_INFO_INC;
      infoHashShift := 0;
      model, limit := map[], CalcMaxNumElementsAllowed(maxElements);
      InitLayout();
    }

    /** Halve the eight info bytes from `at` in one word. */
    method HalveEight(at: nat)
      requires at + 8 <= info.Length && forall j :: at <= j < at + 8 ==> info[j] < 256
      modifies info
      ensures forall j :: 0 <= j < info.Length && !(at <= j < at + 8) ==> info[j] == old(info[j])
      ensures forall j :: at <= j < at + 8 ==> info[j] == old(info[j]) / 2
    {
      ghost var b := info[at..at + 8];
      HalveWordHalvesBytes(b);
      var bytes := StoreWord(HalveWord(LoadWord(info[at..at + 8])), 8);
      forall j | 0 <= j < 8 {
        info[at + j] := bytes[j];
      }
      forall j | at <= j < at + 8 ensures info[j] == old(info[j]) / 2 {
        assert info[at + (j - at)] == bytes[j - at] == b[j - at] / 2;
      }
    }

    /** Halve all info bytes, word by word; the last word may spill over the sentinel, which is then restored. */
    method HalveInfo()
      requires info.Length == keyVals.Length + 8
      requires forall j :: 0 <= j < info.Length ==> info[j] < 256
      requires forall j :: keyVals.Length < j < info.Length ==> info[j] == 0
      modifies info
      ensures forall j :: 0 <= j < keyVals.Length ==> info[j] == old(info[j]) / 2
      ensures info[keyVals.Length] == 1 && forall j :: keyVals.Length < j < info.Length ==> info[j] == 0
    {
      var i := 0;
      while i < keyVals.Length
        invariant 0 <= i < keyVals.Length + 8
        invariant forall j :: 0 <= j < i ==> info[j] == old(info[j]) / 2
        invariant forall j :: i <= j < info.Length ==> info[j] == old(info[j])
        decreases keyVals.Length - i
      {
        HalveEight(i);
        i := i + 8;
      }
      info[keyVals.Length] := 1;
    }

    /** Give one hash bit up to distance, if there is one to spare: same entries, same slots, half the unit. */
    method TryIncreaseInfo() returns (ok: bool)
      requires mask > 0 && Sized() && Holds(model)
      modifies `infoInc, `infoHashShift, `maxNumElementsAllowed, info
      ensures Holds(model) && (ok <==> old(infoInc) > 2)
      ensures ok ==> maxNumElementsAllowed == limit && infoInc == old(infoInc) / 2 && infoHashShift == old(infoHashShift) + 1
      ensures !ok ==> infoInc == old(infoInc) && maxNumElementsAllowed == old(maxNumElementsAllowed)
      ensures ok ==> Now() == Halved(TheRules(), old(Now()))
    {
      if infoInc <= 2 {
        return false;
      }
      ghost var s, info0, nodes0 := ShapeNow(), info[..], keyVals[..];
      BytesFit(s, info0, nodes0);
      hide Layout, Represents, Roomy;
      infoInc := infoInc / 2;
      infoHashShift := infoHashShift + 1;
      HalveInfo();
      maxNumElementsAllowed := CalcMaxNumElementsAllowed(mask + 1);
      HalvingKeepsLayout(s, info0, nodes0, info[..]);
      assert info[..] == HalvedInfo(info0, |nodes0|);
      ok := true;
    }

    // -------------------------------------------------------------- inserting

    /** With `node` put at slot `at`, the arrays would lay out exactly `m`. */
    ghost predicate SpotFor(at: nat, node: Node<K, V>, m: map<K, V>)
      reads `info, `keyVals, `mask, `infoInc, `infoHashShift, `hashMultiplier, `maxNumElementsAllowed, `limit
      reads info, keyVals
    {
      && mask + 1 >= INITIAL_NUM_ELEMENTS && at < keyVals.Length
      && keyVals.Length == mask + 1 + (if limit < 0xFF then limit else 0xFF)
      && Layout(ShapeNow(), info[..], keyVals[..][at := node])
      && Represents(keyVals[..][at := node], m)
      && (maxNumElementsAllowed == 0 || maxNumElementsAllowed == limit)
      && (maxNumElementsAllowed > 0 ==> Roomy(ShapeNow(), info[..]))
    }

    /** The overflow tail guarantees an empty slot at or after any insertion point. */
    lemma EmptyAhead(key: K, ins: nat) returns (z: nat)
      requires mask > 0 && Holds(model) && |model.Keys| < limit
      requires InsertionPoint(ShapeNow(), info[..], key, ins)
      ensures ins <= z < keyVals.Length < info.Length && info[z] == 0
    {
      var home := Home(ShapeNow(), key);
      TableHasRoom(ShapeNow(), info[..], keyVals[..], model, home);
      z :| home <= z < keyVals.Length && info[..][z] == 0;
      if z < ins {
        HomeOrAway(ShapeNow(), key, z);
      }
    }

    /** The first empty slot at or after the insertion point. */
    method FindEmpty(ins: nat, ghost z: nat) returns (e: nat)
      requires ins <= z < keyVals.Length < info.Length && info[z] == 0
      ensures ins <= e < keyVals.Length && info[e] == 0
      ensures forall j :: ins <= j < e ==> info[j] != 0
    {
      e := ins;
      while info[e] != 0
        invariant ins <= e <= z
        invariant forall j :: ins <= j < e ==> info[j] != 0
        decreases z - e
      {
        e := e + 1;
      }
    }

    /** Open slot `ins` by shifting `[ins, e)` up, and write the new entry's info byte. */
    method OpenSpot(ins: nat, e: nat, probe: nat)
      requires ins <= e < keyVals.Length < info.Length && probe <= 0xFF
      requires forall j :: ins <= j < e ==> info[j] + infoInc <= 0xFF
      modifies `maxNumElementsAllowed, info, keyVals
      ensures info[..] == ShiftedInfo(old(info[..]), ins, e, probe, infoInc)
      ensures keyVals[..] == ShiftedNodes(old(keyVals[..]), ins, e, old(keyVals[ins]))
      ensures maxNumElementsAllowed == 0 || maxNumElementsAllowed == old(maxNumElementsAllowed)
      ensures maxNumElementsAllowed > 0 ==> forall j :: ins <= j <= e ==> info[..][j] + infoInc <= 0xFF
      ensures old(maxNumElementsAllowed) > 0 && maxNumElementsAllowed == 0 ==> Tight(info[..], keyVals.Length, infoInc)
    {
      hide ToByte, ShiftedInfo, ShiftedNodes;
      ghost var info0, nodes0 := info[..], keyVals[..];
      if probe + infoInc > 0xFF {
        maxNumElementsAllowed := 0;
      }
      ghost var tight := ins;
      if e != ins {
        ghost var stopped := maxNumElementsAllowed == 0;
        ShiftUp(e, ins);
        if !stopped && maxNumElementsAllowed == 0 {
          tight :| ins < tight <= e && info[tight] + infoInc > 0xFF;
        }
      }
      info[ins] := ToByte(probe);
      ShiftedIs(info0, info[..], nodes0, keyVals[..], ins, e, infoInc);
      assert old(maxNumElementsAllowed) > 0 && maxNumElementsAllowed == 0 ==> info[..][tight] + infoInc > 0xFF;
    }

    /** The table once `node` is stored at `at` and counted. */
    ghost function WithNode(at: nat, node: Node<K, V>): Image<K, V>
      requires at < keyVals.Length
      reads this, info, keyVals
    {
      Now().(nodes := keyVals[..][at := node], num := numElements + 1)
    }

    /**
     Make slot `ins` ready for a new key: shift the run from there up into the next empty slot, write the info
     byte, and note when some info byte leaves no room for one more step. The key's node is stored by the caller.
     */
    method PrepareSpot(key: K, ins: nat, probe: nat, ghost val: V) returns (shifted: bool)
      requires mask > 0 && Holds(model) && |model.Keys| < limit && maxNumElementsAllowed > 0
      requires key !in model && InsertionPoint(ShapeNow(), info[..], key, ins) && probe == Probe(ShapeNow(), key, ins)
      modifies `maxNumElementsAllowed, info, keyVals
      ensures SpotFor(ins, Node(key, val), model[key := val]) && Justified()
      ensures WithNode(ins, Node(key, val)) == PlacedIn(TheRules(), old(Now()), Node(key, val))
      ensures ins == SlotFor(TheRules(), old(Now()), key)
      ensures keyVals[ins] == old(keyVals[ins]) && (shifted <==> keyVals[ins].Node?)
    {
      hide Layout, Represents, PlacedIn, ShiftedInfo, ShiftedNodes, Tight, InsertionPoint, Probe, Home;
      ghost var s, v, node := ShapeNow(), Now(), Node(key, val);
      InsertionInfoFits(s, v.info, v.nodes, key, ins);
      ghost var z := EmptyAhead(key, ins);
      var e := FindEmpty(ins, z);
      shifted := e != ins;
      VacantExactly(ins);
      BelowRoomy(ins, e);
      OpenSpot(ins, e, probe);
      SpotOpened(s, v.info, v.nodes, ins, e, node, probe, model, maxNumElementsAllowed > 0);
      KeptBehind(v.nodes, ins, e);
      ShiftedUpdate(v.nodes, ins, e, v.nodes[ins], node);
      SpotPlaced(TheRules(), v, ins, e, node);
      RoomyNotTight(s, info[..]);
    }

    lemma KeptBehind(nodes: seq<Node<K, V>>, ins: nat, e: nat)
      requires ins < |nodes|
      ensures ShiftedNodes(nodes, ins, e, nodes[ins])[ins] == nodes[ins]
    {
    }

    lemma VacantExactly(at: nat)
      requires mask > 0 && Holds(model) && at < keyVals.Length < info.Length
      ensures info[at] == 0 <==> keyVals[at].Vacant?
    {
      assert EntryOk(ShapeNow(), info[..][at], keyVals[..][at], at);
    }

    lemma BelowRoomy(ins: nat, e: nat)
      requires Holds(model) && maxNumElementsAllowed > 0 && e < keyVals.Length
      ensures keyVals.Length < info.Length && forall j :: ins <= j < e ==> info[j] + infoInc <= 0xFF
    {
      assert Roomy(ShapeNow(), info[..]);
      assert forall j :: 0 <= j < keyVals.Length ==> info[..][j] == info[j];
    }

    /** If insertions are stopped, then some info byte has no room for one more unit. */
    ghost predicate Justified()
      reads `maxNumElementsAllowed, `limit, `infoInc, `info, `keyVals, info
    {
      maxNumElementsAllowed == limit || Tight(info[..], keyVals.Length, infoInc)
    }

    /** Every slot from the key's home up to `idx` outranks it. */
    ghost predicate Outranked(key: K, idx: nat)
      reads this, info
    {
      forall j :: Home(ShapeNow(), key) <= j < idx && j < info.Length ==> info[j] >= Probe(ShapeNow(), key, j)
    }

    /**
     Insert an entry that is not in the table, while rehashing: possible exactly while insertions are allowed or there
     is a hash bit to give up.
     */
    method InsertMove(node: Node<K, V>) returns (ok: bool)
      requires mask > 0 && Valid() && node.Node? && node.key !in model && |model.Keys| < limit
      modifies this, info, keyVals
      ensures info == old(info) && keyVals == old(keyVals) && mask == old(mask) && limit == old(limit)
      ensures hashMultiplier == old(hashMultiplier)
      ensures ok <==> old(maxNumElementsAllowed > 0 || infoInc > 2)
      ensures ok ==> Valid() && Justified() && model == old(model)[node.key := node.val]
      ensures !ok ==> Valid() && model == old(model) && maxNumElementsAllowed == 0 && infoInc <= 2
      ensures ok ==> Now() == MovedIn(TheRules(), old(Now()), node)
    {
      hide Layout, Represents, Roomy, Justified, PlacedIn, Halved;
      if maxNumElementsAllowed == 0 {
        ok := TryIncreaseInfo();
        if !ok {
          return;
        }
      }
      InsertNew(node);
      ok := true;
    }

    /** Insert an entry that is not in the table while insertions are allowed. */
    method InsertNew(node: Node<K, V>)
      requires mask > 0 && Valid() && node.Node? && node.key !in model && |model.Keys| < limit && maxNumElementsAllowed > 0
      modifies this, info, keyVals
      ensures info == old(info) && keyVals == old(keyVals) && mask == old(mask) && limit == old(limit)
      ensures hashMultiplier == old(hashMultiplier)
      ensures Valid() && Justified() && model == old(model)[node.key := node.val]
      ensures Now() == PlacedIn(TheRules(), old(Now()), node)
    {
      hide Layout, Represents, Roomy, PlacedIn;
      var idx, probe := SeekNew(node.key);
      var shifted := PrepareSpot(node.key, idx, probe, node.val);
      numElements := numElements + 1;
      if shifted {
        OverwriteAt(idx, node);
      } else {
        ConstructAt(idx, node);
      }
    }

    /** Insertions are stopped at the finest unit exactly when some window of home slots is crowded. */
    lemma StuckExactly()
      requires mask > 0 && Valid() && Justified() && 0 < limit
      ensures maxNumElementsAllowed == 0 && infoInc <= 2 <==> Crowded(ShapeNow(), model.Keys)
    {
      hide EntryOk, Ordered, Distinct, Represents, Crowded, Far;
      var s := ShapeNow();
      if maxNumElementsAllowed == 0 && infoInc <= 2 {
        var j :| 0 <= j < keyVals.Length && j < |info[..]| && info[..][j] + infoInc > 0xFF;
        FarExactly(s, info[..], keyVals[..], j);
        FarMeansCrowded(s, info[..], keyVals[..], model, j);
      }
      if Crowded(s, model.Keys) {
        var p := CrowdedMeansFar(s, info[..], keyVals[..], model);
        FarExactly(s, info[..], keyVals[..], p);
        assert info[..][p] + infoInc > 0xFF;
      }
    }

    /** Some slot from the key's home on does not outrank it. */
    lemma SeekEnds(key: K, idx: nat)
      requires mask > 0 && Holds(model) && |model.Keys| < limit
      requires Home(ShapeNow(), key) <= idx <= keyVals.Length && Outranked(key, idx)
      ensures idx < keyVals.Length
    {
      var s := ShapeNow();
      TableHasRoom(s, info[..], keyVals[..], model, Home(s, key));
      var z :| Home(s, key) <= z < keyVals.Length && info[..][z] == 0;
      HomeOrAway(s, key, z);
    }

    /** One slot of the search for an insertion point. */
    lemma SeekAt(key: K, idx: nat)
      requires mask > 0 && Holds(model)
      requires Home(ShapeNow(), key) <= idx <= keyVals.Length
      ensures idx < info.Length && Probe(ShapeNow(), key, idx + 1) == Probe(ShapeNow(), key, idx) + infoInc
      ensures Probe(ShapeNow(), key, idx) <= info[idx] ==> idx < keyVals.Length
      ensures Outranked(key, idx) && Probe(ShapeNow(), key, idx) <= info[idx] ==> Outranked(key, idx + 1)
    {
      HomeOrAway(ShapeNow(), key, idx);
      ProbeStopsAtEnd(ShapeNow(), info[..], key, idx);
    }

    /** Skip every slot that outranks a key known to be absent. */
    method SeekNew(key: K) returns (idx: nat, probe: nat)
      requires mask > 0 && Holds(model) && |model.Keys| < limit
      ensures InsertionPoint(ShapeNow(), info[..], key, idx) && probe == Probe(ShapeNow(), key, idx)
    {
      idx, probe := KeyToIdx(key).0, KeyToIdx(key).1;
      SeekAt(key, idx);
      while probe <= info[idx]
        invariant Home(ShapeNow(), key) <= idx <= keyVals.Length < info.Length
        invariant probe == Probe(ShapeNow(), key, idx) && Outranked(key, idx)
        decreases keyVals.Length - idx
      {
        SeekAt(key, idx);
        idx, probe := idx + 1, probe + infoInc;
      }
      SeekEnds(key, idx);
    }

    /** Slot `at` is ready for `node`: it has been counted, and only its node is missing. */
    ghost predicate Prepared(at: nat, node: Node<K, V>)
      reads this, info, keyVals
    {
      && mask > 0 && Sized() && node.Node? && node.key !in model
      && SpotFor(at, node, model[node.key := node.val])
      && numElements == |model.Keys| + 1 <= limit
    }

    /** Construct a node at a prepared slot that has none. */
    method ConstructAt(at: nat, node: Node<K, V>)
      requires Prepared(at, node) && keyVals[at].Vacant?
      modifies `model, keyVals
      ensures Valid() && model == old(model)[node.key := node.val]
      ensures keyVals == old(keyVals) && at < keyVals.Length && keyVals[at] == node
      ensures Now() == old(Now()).(nodes := old(keyVals[..])[at := node])
    {
      hide Valid, Prepared;
      FillSpot(at, node);
    }

    /** Assign to the node that was moved out of a prepared slot. */
    method OverwriteAt(at: nat, node: Node<K, V>)
      requires Prepared(at, node) && keyVals[at].Node?
      modifies `model, keyVals
      ensures Valid() && model == old(model)[node.key := node.val]
      ensures keyVals == old(keyVals) && at < keyVals.Length && keyVals[at] == node
      ensures Now() == old(Now()).(nodes := old(keyVals[..])[at := node])
    {
      hide Valid, Prepared;
      FillSpot(at, node);
    }

    method FillSpot(at: nat, node: Node<K, V>)
      requires Prepared(at, node)
      modifies `model, keyVals
      ensures Valid() && model == old(model)[node.key := node.val]
      ensures keyVals == old(keyVals) && at < keyVals.Length && keyVals[at] == node
      ensures Now() == old(Now()).(nodes := old(keyVals[..])[at := node])
    {
      assert |model[node.key := node.val].Keys| == |model.Keys| + 1;
      keyVals[at] := node;
      assert keyVals[..] == old(keyVals[..])[at := node];
      model := model[node.key := node.val];
    }

    // -------------------------------------------------------------- rehashing

    /**
     Move every entry to fresh arrays with `numBuckets` home slots, under the current hash multiplier. That fails
     exactly when at some point, with entries still to move, some window of home slots is crowded. The table then has
     just the entries moved so far.
     */
    method RehashPowerOfTwo(numBuckets: nat) returns (ok: bool)
      requires numBuckets >= INITIAL_NUM_ELEMENTS && 10 < loadFactor100 < 100 && PowerOfTwo(numBuckets)
      requires Entries(info[..], keyVals[..], model) && |model.Keys| <= CalcMaxNumElementsAllowed(numBuckets)
      modifies this
      ensures fresh(info) && fresh(keyVals)
      ensures Valid() && mask == numBuckets - 1 && hashMultiplier == old(hashMultiplier)
      ensures !ok <==> RehashFails(TheRules(), old(keyVals[..]), numBuckets, old(hashMultiplier))
      ensures ok ==> model == old(model) && Justified()
      ensures ok ==> Now() == Rehashed(TheRules(), old(keyVals[..]), numBuckets, old(hashMultiplier))
      ensures !ok ==> maxNumElementsAllowed == 0 && infoInc <= 2 && LostSome(old(model), model)
      ensures |old(model).Keys| <= 127 ==> ok
    {
      hide Valid, Entries, MovedUpTo, Justified, Fresh, MovedUp, CrowdedBefore, LostSome;
      var oldKeyVals, oldInfo := keyVals, info;
      ghost var nodes, all := keyVals[..], model;
      StartOver(numBuckets, nodes, all);
      ghost var v := Now();
      NoneMoved(nodes, v);
      ok := MoveAll(oldInfo, oldKeyVals, nodes, all, v);
      if ok {
        MovedAll(oldInfo[..], nodes, all, model);
        NeverCrowded(nodes, v);
      } else {
        FewNeverFail(all, model);
      }
    }

    lemma NoneMoved(nodes: seq<Node<K, V>>, v: Image<K, V>)
      ensures MovedUp(TheRules(), v, nodes, 0) == v
    {
    }

    lemma FewNeverFail(all: map<K, V>, m: map<K, V>)
      requires LostSome(all, m)
      ensures |all.Keys| > 127
    {
    }

    method StartOver(numBuckets: nat, ghost nodes: seq<Node<K, V>>, ghost all: map<K, V>)
      requires numBuckets >= INITIAL_NUM_ELEMENTS && 10 < loadFactor100 < 100 && PowerOfTwo(numBuckets)
      modifies this
      ensures Valid() && Justified() && MovedUpTo(nodes, all, 0, model) && mask == numBuckets - 1
      ensures fresh(info) && fresh(keyVals) && hashMultiplier == old(hashMultiplier)
      ensures Now() == Fresh(TheRules(), numBuckets, hashMultiplier)
    {
      hide Valid, MovedUpTo, Justified, Fresh;
      InitData(numBuckets);
      MovedNone(nodes, all);
    }

    /** The entries of the first `i` slots are in the table that was `v`, and nothing was in the way. */
    ghost predicate MovedSoFar(nodes: seq<Node<K, V>>, all: map<K, V>, v: Image<K, V>, i: nat)
      reads this, info, keyVals
    {
      && i <= |nodes| && mask > 0 && Valid() && Justified() && MovedUpTo(nodes, all, i, model)
      && Now() == MovedUp(TheRules(), v, nodes, i)
      && forall j: nat :: j < i ==> !CrowdedBefore(Place(TheRules(), mask, hashMultiplier), nodes, j)
    }

    lemma NeverCrowded(nodes: seq<Node<K, V>>, v: Image<K, V>)
      requires MovedSoFar(nodes, model, v, |nodes|)
      ensures !SomeCrowdedBefore(Place(TheRules(), mask, hashMultiplier), nodes)
    {
      hide Valid, Crowded, KeysIn;
      forall j: nat ensures !CrowdedBefore(Place(TheRules(), mask, hashMultiplier), nodes, j) {
      }
    }

    /** Reinsert every entry of the old arrays. */
    method MoveAll(oldInfo: array<nat>, oldKeyVals: array<Node<K, V>>, ghost nodes: seq<Node<K, V>>, ghost all: map<K, V>,
                   ghost v: Image<K, V>)
      returns (ok: bool)
      requires MovedSoFar(nodes, all, v, 0) && |all.Keys| <= CalcMaxNumElementsAllowed(mask + 1)
      requires info != oldInfo && keyVals != oldKeyVals
      requires nodes == oldKeyVals[..] && Entries(oldInfo[..], nodes, all)
      modifies this, info, keyVals
      ensures info == old(info) && keyVals == old(keyVals) && mask == old(mask) && hashMultiplier == old(hashMultiplier)
      ensures if ok then MovedSoFar(nodes, all, v, |nodes|)
              else Valid() && SomeCrowdedBefore(Place(TheRules(), mask, hashMultiplier), nodes)
      ensures !ok ==> maxNumElementsAllowed == 0 && infoInc <= 2 && LostSome(all, model)
    {
      hide MovedSoFar, Valid, Distinct, Represents, LostSome, CrowdedBefore, CalcMaxNumElementsAllowed;
      var i := 0;
      while i < oldKeyVals.Length
        invariant 0 <= i <= oldKeyVals.Length
        invariant mask == old(mask) && hashMultiplier == old(hashMultiplier) && info == old(info) && keyVals == old(keyVals)
        invariant MovedSoFar(nodes, all, v, i)
        decreases oldKeyVals.Length - i
      {
        assert oldInfo[i] == oldInfo[..][i] && oldKeyVals[i] == nodes[i];
        ok := MoveOne(oldInfo[i], oldKeyVals[i], nodes, all, v, i);
        if !ok {
          return;
        }
        i := i + 1;
      }
      ok := true;
    }

    /** One round of the rehashing loop. */
    method MoveOne(byte: nat, node: Node<K, V>, ghost nodes: seq<Node<K, V>>, ghost all: map<K, V>, ghost v: Image<K, V>,
                   ghost i: nat)
      returns (ok: bool)
      requires MovedSoFar(nodes, all, v, i)
      requires i < |nodes| && node == nodes[i] && (byte != 0 <==> node.Node?)
      requires Distinct(nodes) && Represents(nodes, all) && |all.Keys| <= CalcMaxNumElementsAllowed(mask + 1)
      modifies this, info, keyVals
      ensures info == old(info) && keyVals == old(keyVals) && mask == old(mask) && hashMultiplier == old(hashMultiplier)
      ensures if ok then MovedSoFar(nodes, all, v, i + 1)
              else Valid() && CrowdedBefore(Place(TheRules(), mask, hashMultiplier), nodes, i)
      ensures !ok ==> maxNumElementsAllowed == 0 && infoInc <= 2 && LostSome(all, model)
    {
      hide Holds, MovedUpTo, Distinct, Represents, Justified, Crowded, MovedIn, LostSome;
      if byte != 0 {
        MovedNext(nodes, all, i, model);
        MovedKeys(nodes, all, i, model);
        StuckExactly();
        CrowdedAlike(ShapeNow(), Place(TheRules(), mask, hashMultiplier), model.Keys);
        if Crowded(ShapeNow(), model.Keys) {
          CrowdedNeedsMany(ShapeNow(), model.Keys);
        }
        ok := InsertMove(node);
      } else {
        MovedSkip(nodes, all, i, model);
        ok := true;
      }
    }

    /** Adding an even number keeps the multiplier odd, and it is another one. */
    method NextHashMultiplier()
      modifies `hashMultiplier
      ensures hashMultiplier == NextMultiplier(old(hashMultiplier)) && Odd(hashMultiplier) == Odd(old(hashMultiplier))
      ensures hashMultiplier != old(hashMultiplier)
    {
      MultiplierMoves(hashMultiplier);
      hashMultiplier := (hashMultiplier + 0xc4ce_b9fe_1a85_ec54) % 0x1_0000_0000_0000_0000;
    }

    /** What a rehash at the same or at twice the size asks for. */
    lemma RegrowReady()
      requires mask > 0 && Valid()
      ensures mask + 1 >= INITIAL_NUM_ELEMENTS && 10 < loadFactor100 < 100 && PowerOfTwo(mask + 1) && PowerOfTwo((mask + 1) * 2)
      ensures Entries(info[..], keyVals[..], model) && limit == CalcMaxNumElementsAllowed(mask + 1)
      ensures |model.Keys| <= CalcMaxNumElementsAllowed(mask + 1) <= CalcMaxNumElementsAllowed((mask + 1) * 2)
    {
      hide Layout, Represents;
      DoublePower(mask + 1);
      LayoutEntries(ShapeNow(), info[..], keyVals[..], model);
      TimesMonotone(mask + 1, (mask + 1) * 2, loadFactor100);
    }

    /**
     Rehash at the same size with another multiplier when the table is nearly empty, at twice the size
     otherwise.
     */
    method Regrow() returns (ok: bool)
      requires mask > 0 && Valid() && !HasSpareBit(TheRules(), Now())
      modifies this
      ensures Valid() && mask > 0 && (ok ==> model == old(model) && Justified())
      ensures !ok <==> GrowFails(TheRules(), old(Now()))
      ensures ok ==> Now() == Grown(TheRules(), old(Now()))
      ensures ok ==> mask + 1 == if 2 * old(numElements) < old(limit) then old(mask) + 1 else 2 * (old(mask) + 1)
      ensures hashMultiplier != old(hashMultiplier) <==> 2 * old(numElements) < old(limit)
      ensures Odd(hashMultiplier) == Odd(old(hashMultiplier))
      ensures !ok ==> maxNumElementsAllowed == 0 && infoInc <= 2 && LostSome(old(model), model)
      ensures |old(model).Keys| <= 127 ==> ok
      ensures fresh(info) && fresh(keyVals)
    {
      hide Valid, Justified, RehashFails, Rehashed, LostSome, Entries, PowerOfTwo, Odd;
      RegrowReady();
      if numElements * 2 < CalcMaxNumElementsAllowed(mask + 1) {
        NextHashMultiplier();
        ok := RehashPowerOfTwo(mask + 1);
      } else {
        ok := RehashPowerOfTwo((mask + 1) * 2);
      }
    }

    /** Make room, whichever way is cheapest; the entries stay the same unless a rehash overflows. */
    method IncreaseSize() returns (ok: bool)
      requires Valid()
      modifies this, info
      ensures Valid() && mask > 0 && (ok ==> model == old(model) && Justified())
      ensures !ok <==> GrowFails(TheRules(), old(Now()))
      ensures ok ==> Now() == Grown(TheRules(), old(Now()))
      ensures old(mask) == 0 ==> ok && mask + 1 == INITIAL_NUM_ELEMENTS
      ensures HasSpareBit(TheRules(), old(Now())) ==> ok && mask == old(mask) && infoInc == old(infoInc) / 2
      ensures ok && old(mask) > 0 && !HasSpareBit(TheRules(), old(Now())) ==>
        mask + 1 == if 2 * old(numElements) < old(limit) then old(mask) + 1 else 2 * (old(mask) + 1)
      ensures hashMultiplier != old(hashMultiplier) <==>
        old(mask) > 0 && !HasSpareBit(TheRules(), old(Now())) && 2 * old(numElements) < old(limit)
      ensures Odd(hashMultiplier) == Odd(old(hashMultiplier))
      ensures !ok ==> maxNumElementsAllowed == 0 && infoInc <= 2 && LostSome(old(model), model)
      ensures |old(model).Keys| <= 127 ==> ok
      ensures info == old(info) || fresh(info)
      ensures keyVals == old(keyVals) || fresh(keyVals)
    {
      hide Holds, Halved, Rehashed, RehashFails, Fresh, LostSome, Odd;
      if mask == 0 {
        assert Pow2(3) == INITIAL_NUM_ELEMENTS;
        InitData(INITIAL_NUM_ELEMENTS);
        return true;
      }
      if numElements < CalcMaxNumElementsAllowed(mask + 1) {
        ok := TryIncreaseInfo();
        if ok {
          return;
        }
      }
      ok := Regrow();
    }

    // -------------------------------------------------------------- inserting a key that may be present

    /** A probe for an insertion: nothing passed is the key, and everything passed outranks it. */
    ghost predicate Seeking(key: K, idx: nat, probe: nat)
      reads this, info, keyVals
    {
      Probing(key, idx, probe) && idx <= keyVals.Length && Outranked(key, idx)
    }

    /** Past a slot with at least the probe's info byte that is not the key's. */
    lemma SeekStep(key: K, idx: nat, probe: nat)
      requires Valid() && Seeking(key, idx, probe) && idx < info.Length && probe <= info[idx]
      requires !Match(key, idx, probe)
      ensures idx + 1 < info.Length && Seeking(key, idx + 1, probe + infoInc)
      ensures probe == info[idx] ==> info[idx + 1] <= probe + infoInc
      ensures mask > 0 && idx < keyVals.Length
    {
      hide Probing, Outranked, Layout, Represents, Roomy;
      ProbeAt(key, idx, probe);
      SeekStepAllocated(key, idx, probe);
    }

    lemma SeekStepAllocated(key: K, idx: nat, probe: nat)
      requires mask > 0 && Valid() && Probing(key, idx, probe) && Outranked(key, idx)
      requires idx < keyVals.Length && idx < info.Length && probe <= info[idx]
      ensures idx + 1 < info.Length && Outranked(key, idx + 1)
      ensures probe == info[idx] ==> info[idx + 1] <= probe + infoInc
    {
      hide Distinct, Represents, Roomy, EntryOk, NotBefore;
      SeekAt(key, idx);
      if probe == info[idx] {
        EqualThenNotLess(ShapeNow(), info[..], key, idx);
      }
    }

    /** Forward past every slot that strictly outranks the key. */
    method NextWhileLess(key: K, start: nat, startProbe: nat) returns (idx: nat, probe: nat)
      requires Valid() && Seeking(key, start, startProbe)
      ensures Seeking(key, idx, probe) && idx < info.Length && info[idx] <= probe && idx <= keyVals.Length
    {
      hide Valid, Seeking;
      idx, probe := start, startProbe;
      SeekReads(key, idx, probe);
      while probe < info[idx]
        invariant Seeking(key, idx, probe) && idx < info.Length && idx <= keyVals.Length
        decreases keyVals.Length - idx
      {
        SeekStep(key, idx, probe);
        idx, probe := idx + 1, probe + infoInc;
        SeekReads(key, idx, probe);
      }
    }

    lemma SeekReads(key: K, idx: nat, probe: nat)
      requires Valid() && Seeking(key, idx, probe)
      ensures idx <= keyVals.Length && idx < info.Length
    {
      ProbeReads(key, idx, probe);
    }

    /** The key's own slot, or the point where it would have to go. */
    method SeekKey(key: K) returns (found: bool, idx: nat, probe: nat)
      requires Valid()
      ensures found ==> key in model && idx < keyVals.Length && keyVals[idx] == Node(key, model[key])
      ensures !found ==> key !in model
      ensures !found && mask > 0 ==> Seeking(key, idx, probe) && idx < info.Length && info[idx] < probe
    {
      hide Valid, Seeking, Match;
      idx, probe := KeyToIdx(key).0, KeyToIdx(key).1;
      SeekBegins(key);
      idx, probe := NextWhileLess(key, idx, probe);
      while probe == info[idx]
        invariant Seeking(key, idx, probe) && idx < info.Length && info[idx] <= probe && idx <= keyVals.Length
        decreases keyVals.Length - idx
      {
        SeekMatch(key, idx, probe);
        if keyVals[idx].key == key {
          return true, idx, probe;
        }
        SeekStep(key, idx, probe);
        idx, probe := idx + 1, probe + infoInc;
        SeekReads(key, idx, probe);
      }
      SeekMisses(key, idx, probe);
      found := false;
    }

    lemma SeekBegins(key: K)
      requires Valid()
      ensures Seeking(key, KeyToIdx(key).0, KeyToIdx(key).1)
    {
      ProbeStart(key);
    }

    lemma SeekMatch(key: K, idx: nat, probe: nat)
      requires Valid() && Seeking(key, idx, probe) && idx < info.Length && probe == info[idx]
      ensures idx < keyVals.Length && keyVals[idx].Node?
      ensures Match(key, idx, probe) <==> keyVals[idx].key == key
      ensures keyVals[idx].key == key ==> key in model && keyVals[idx] == Node(key, model[key])
    {
      hide Probing, Allocated, Unallocated, Outranked;
      ProbeAt(key, idx, probe);
    }

    lemma SeekMisses(key: K, idx: nat, probe: nat)
      requires Valid() && Seeking(key, idx, probe) && idx < info.Length && info[idx] < probe
      ensures key !in model && idx <= keyVals.Length
    {
      ProbeMisses(key, idx, probe);
    }

    /** Where an absent key's probe stopped is where it belongs. */
    lemma SeekPoint(key: K, idx: nat, probe: nat)
      requires mask > 0 && Valid() && Seeking(key, idx, probe) && idx < info.Length && info[idx] < probe
      requires |model.Keys| < limit
      ensures InsertionPoint(ShapeNow(), info[..], key, idx) && probe == Probe(ShapeNow(), key, idx)
    {
      hide Layout, Represents, Roomy;
      SeekEnds(key, idx);
    }

    lemma ValidIsSound()
      requires Valid()
      ensures Sound(TheRules(), Now(), model)
      ensures Justified() ==> Settled(TheRules(), Now())
    {
      hide EntryOk, Ordered, Distinct, Represents;
      if mask > 0 {
        RoomyNotTight(ShapeNow(), info[..]);
      }
    }

    /** The table with `node` stored at `at`. */
    ghost function Filled(at: nat, node: Node<K, V>): Image<K, V>
      requires at < keyVals.Length
      reads this, info, keyVals
    {
      Now().(nodes := keyVals[..][at := node])
    }

    /** How making room for an absent key went: as it had to. */
    ghost predicate WentAs(g: Growth<K, V>, idx: nat, node: Node<K, V>, state: InsertionState)
      reads this, info, keyVals
    {
      match g
      case Room(w) =>
        && node.Node? && idx < keyVals.Length && idx == SlotFor(TheRules(), w, node.key)
        && Filled(idx, node) == PlacedIn(TheRules(), w, node)
        && state == (if Displaces(TheRules(), w, node.key) then OverwriteNode else NewNode)
      case Throws => state == RehashThrew
      case GivesUp => state == OverflowError
    }

    /** Make room once, with `attempts` left: the table grown to has room just if this one gets it. */
    method MakeRoom(ghost attempts: nat) returns (ok: bool)
      requires Valid() && numElements >= maxNumElementsAllowed && attempts > 0
      modifies this, info
      ensures Valid() && Odd(hashMultiplier) == Odd(old(hashMultiplier))
      ensures ok ==> model == old(model)
      ensures ok ==> Outcome(TheRules(), old(Now()), attempts) == Outcome(TheRules(), Now(), attempts - 1)
      ensures ok && SoundGrowth(TheRules(), Now(), model, attempts - 1) ==> SoundGrowth(TheRules(), old(Now()), model, attempts)
      ensures !ok ==> Outcome(TheRules(), old(Now()), attempts).Throws?
      ensures !ok ==> SoundGrowth(TheRules(), old(Now()), old(model), attempts)
      ensures !ok ==> maxNumElementsAllowed == 0 && infoInc <= 2 && LostSome(old(model), model)
      ensures |old(model).Keys| <= 127 ==> ok
      ensures (info == old(info) || fresh(info)) && (keyVals == old(keyVals) || fresh(keyVals))
    {
      hide Valid, LostSome, GrowFails, Grown, Justified, Outcome, SoundGrowth, Sound, Settled, HasSpareBit, Odd;
      ghost var w, m := Now(), model;
      ValidIsSound();
      GrowthEnds(TheRules(), w, m, attempts);
      ok := IncreaseSize();
      if ok {
        ValidIsSound();
        GrownOnce(TheRules(), w, m, attempts);
      }
    }

    /**
     Find `key`, or prepare a slot for it: grow as often as it takes, at most 256 times. Growing never changes
     the entries, and an absent key's slot is ready for any value.
     */
    method InsertKeyPrepareEmptySpot(key: K, ghost val: V) returns (idx: nat, state: InsertionState)
      requires Valid()
      modifies this, info, keyVals
      ensures state != RehashThrew ==> model == old(model)
      ensures state == KeyFound <==> key in old(model)
      ensures state == KeyFound ==>
        Valid() && key in model && idx < keyVals.Length && keyVals[idx] == Node(key, model[key])
      ensures state == NewNode || state == OverwriteNode ==> key !in model && Prepared(idx, Node(key, val))
      ensures state == NewNode ==> keyVals[idx].Vacant?
      ensures state == OverwriteNode ==> keyVals[idx].Node?
      ensures state == OverflowError ==> Valid()
      ensures state == RehashThrew ==>
        Valid() && maxNumElementsAllowed == 0 && infoInc <= 2 && LostSome(old(model), model)
      ensures |old(model).Keys| <= 127 ==> state != RehashThrew
      ensures key !in old(model) ==> WentAs(Outcome(TheRules(), old(Now()), MAX_ATTEMPTS), idx, Node(key, val), state)
      ensures key !in old(model) ==> SoundGrowth(TheRules(), old(Now()), old(model), MAX_ATTEMPTS)
      ensures old(numElements < maxNumElementsAllowed) ==> state in {KeyFound, NewNode, OverwriteNode}
      ensures Odd(hashMultiplier) == Odd(old(hashMultiplier))
      ensures info == old(info) || fresh(info)
      ensures keyVals == old(keyVals) || fresh(keyVals)
    {
      hide Valid, Seeking, Prepared, LostSome, Outcome, SoundGrowth, Sound, Settled, Odd, PlacedIn, Displaces, SlotFor, Filled;
      ghost var v := Now();
      for i := 0 to MAX_ATTEMPTS
        invariant Valid() && model == old(model) && (i > 0 ==> key !in model) && Odd(hashMultiplier) == Odd(old(hashMultiplier))
        invariant if i == 0 then numElements == old(numElements) && maxNumElementsAllowed == old(maxNumElementsAllowed)
                  else old(numElements >= maxNumElementsAllowed)
        invariant Outcome(TheRules(), v, MAX_ATTEMPTS) == Outcome(TheRules(), Now(), MAX_ATTEMPTS - i)
        invariant SoundGrowth(TheRules(), Now(), model, MAX_ATTEMPTS - i) ==> SoundGrowth(TheRules(), v, model, MAX_ATTEMPTS)
        invariant info == old(info) || fresh(info)
        invariant keyVals == old(keyVals) || fresh(keyVals)
      {
        var found, at, probe := SeekKey(key);
        if found {
          return at, KeyFound;
        }
        if numElements >= maxNumElementsAllowed {
          var ok := MakeRoom(MAX_ATTEMPTS - i);
          if !ok {
            return 0, RehashThrew;
          }
          continue;
        }
        ValidIsSound();
        GrowthEnds(TheRules(), Now(), model, MAX_ATTEMPTS - i);
        var shifted := PrepareAt(key, at, probe, val);
        return at, if shifted then OverwriteNode else NewNode;
      }
      ValidIsSound();
      GrowthEnds(TheRules(), Now(), model, 0);
      return 0, OverflowError;
    }

    /** The probe for an absent key has ended: count the key, and make its slot ready. */
    method PrepareAt(key: K, at: nat, probe: nat, ghost val: V) returns (shifted: bool)
      requires Valid() && key !in model && numElements < maxNumElementsAllowed
      requires mask > 0 ==> Seeking(key, at, probe) && at < info.Length && info[at] < probe
      modifies this, info, keyVals
      ensures Prepared(at, Node(key, val)) && model == old(model) && info == old(info) && keyVals == old(keyVals)
      ensures hashMultiplier == old(hashMultiplier)
      ensures at < keyVals.Length && Filled(at, Node(key, val)) == PlacedIn(TheRules(), old(Now()), Node(key, val))
      ensures at == SlotFor(TheRules(), old(Now()), key) && (shifted <==> keyVals[at].Node?)
      ensures shifted <==> Displaces(TheRules(), old(Now()), key)
    {
      hide Holds, Unallocated, Seeking, SpotFor, InsertionPoint, PlacedIn, Justified;
      HasRoom();
      SeekPoint(key, at, probe);
      shifted := PrepareSpot(key, at, probe, val);
      SpotInBounds(at, Node(key, val));
      numElements := numElements + 1;
    }

    lemma SpotInBounds(at: nat, node: Node<K, V>)
      requires node.Node? && SpotFor(at, node, model[node.key := node.val])
      ensures at < keyVals.Length
    {
    }

    lemma HasRoom()
      requires Valid() && numElements < maxNumElementsAllowed
      ensures mask > 0 && Allocated() && |model.Keys| < limit
    {
    }

    /** Overwrite the value of a key that is present. */
    method Assign(idx: nat, val: V)
      requires Valid() && idx < keyVals.Length && keyVals[idx].Node?
      modifies `model, keyVals
      ensures Valid() && old(keyVals[idx]).key in old(model) && model == old(model)[old(keyVals[idx]).key := val]
    {
      var key := keyVals[idx].key;
      ghost var nodes, m := keyVals[..], model;
      keyVals[idx] := Node(key, val);
      model := m[key := val];
      assert keyVals[..] == nodes[idx := Node(key, val)];
      AssignKeepsLayout(ShapeNow(), info[..], nodes, idx, val, m);
    }

    /**
     Insert the key with this value, or give it this value if it is present; `inserted` says which. The table stays
     sound in any case, and all outcomes but the two failures map exactly the key to `val`. What happens to an absent
     key is what `Outcome` says of the table before; with up to 126 entries there is no failure.
     */
    method InsertOrAssign(key: K, val: V) returns (inserted: bool, state: InsertionState)
      requires Valid()
      modifies this, info, keyVals
      ensures Valid()
      ensures state in {KeyFound, NewNode, OverwriteNode} ==> model == old(model)[key := val]
      ensures state == KeyFound <==> key in old(model)
      ensures state == OverflowError ==> model == old(model)
      ensures inserted <==> state in {NewNode, OverwriteNode}
      ensures old(numElements < maxNumElementsAllowed) ==> state !in {OverflowError, RehashThrew}
      ensures Odd(hashMultiplier) == Odd(old(hashMultiplier))
      ensures state == RehashThrew ==> maxNumElementsAllowed == 0 && infoInc <= 2 && LostSome(old(model), model)
      ensures |old(model).Keys| <= 127 ==> state != RehashThrew
      ensures state == RehashThrew <==>
        key !in old(model) && Outcome(TheRules(), old(Now()), MAX_ATTEMPTS).Throws?
      ensures state == OverflowError <==>
        key !in old(model) && Outcome(TheRules(), old(Now()), MAX_ATTEMPTS).GivesUp?
      ensures key !in old(model) && Outcome(TheRules(), old(Now()), MAX_ATTEMPTS).Room? ==>
        state == if Displaces(TheRules(), Outcome(TheRules(), old(Now()), MAX_ATTEMPTS).image, key) then OverwriteNode
                 else NewNode
      ensures inserted ==>
        Now() == PlacedIn(TheRules(), Outcome(TheRules(), old(Now()), MAX_ATTEMPTS).image, Node(key, val))
      ensures key !in old(model) ==> SoundGrowth(TheRules(), old(Now()), old(model), MAX_ATTEMPTS)
      ensures |old(model).Keys| <= 126 ==> state !in {OverflowError, RehashThrew}
      ensures (info == old(info) || fresh(info)) && (keyVals == old(keyVals) || fresh(keyVals))
    {
      hide Valid, Prepared, LostSome, SoundGrowth, PlacedIn, Outcome, Odd;
      ghost var v, m := Now(), model;
      var idx: nat;
      idx, state := InsertKeyPrepareEmptySpot(key, val);
      if key !in m && |m.Keys| <= 126 {
        FewGetRoom(TheRules(), v, m, MAX_ATTEMPTS);
      }
      inserted := false;
      match state {
        case KeyFound =>
          Assign(idx, val);
        case NewNode =>
          ConstructAt(idx, Node(key, val));
          inserted := true;
        case OverwriteNode =>
          OverwriteAt(idx, Node(key, val));
          inserted := true;
        case OverflowError | RehashThrew =>
      }
    }
  }
}
