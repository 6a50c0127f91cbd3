/**
 The layout of a Robin Hood hash table, on values.

 `info[i]` is zero for an empty slot; otherwise it packs, for the entry stored there, its distance from its
 home slot (in units of `inc`, counted from one) above some hash bits. The table keeps one local law: an
 entry that is away from home has an info byte at most `inc` above its left neighbour's. Everything about
 lookups, insertions and deletions rests on that law.
 */
module RobinHoodLayout {
  import opened Bits

  datatype Node<K, V> = Vacant | Node(key: K, val: V)

  /**
   How a table places its keys: `n` is the number of slots, the mask selects home slots, and
   `hasher(mult, k)` is the key's hash after multiplying and folding.
   */
  datatype Shape<!K> = Shape(n: nat, mask: nat, inc: nat, shift: nat, hasher: (nat, K) -> nat, mult: nat)

  /** Info byte of an entry `dist` slots from home with the given hash bits. */
  function InfoAt(inc: nat, bits: nat, dist: nat): nat {
    if dist == 0 then inc + bits else InfoAt(inc, bits, dist - 1) + inc
  }

  function Home<K>(s: Shape<K>, k: K): (home: nat)
    ensures home <= s.mask
  {
    AndBelow(s.hasher(s.mult, k) / 32, s.mask);
    BitAnd(s.hasher(s.mult, k) / 32, s.mask)
  }

  /** The low five bits of the hash, less the bits already given up to distance. */
  function HashBits<K>(s: Shape<K>, k: K): nat {
    Shr(BitAnd(s.hasher(s.mult, k), 31), s.shift)
  }

  /** The info byte key `k` would have at slot `i`. */
  function Probe<K>(s: Shape<K>, k: K, i: nat): nat
    requires Home(s, k) <= i
  {
    InfoAt(s.inc, HashBits(s, k), i - Home(s, k))
  }

  ghost predicate Units<K>(s: Shape<K>) {
    s.inc >= 2 && s.shift <= 4 && s.inc * Pow2(s.shift) == 32 && s.mask < s.n
  }

  /** Info bytes of a table with `n` slots: the slots, a sentinel, and padding for word-sized loads. */
  ghost predicate Framed<K>(s: Shape<K>, info: seq<nat>) {
    && |info| == s.n + 8 && info[s.n] == 1
    && (forall i :: s.n < i < s.n + 8 ==> info[i] == 0)
  }

  ghost predicate EntryOk<K, V>(s: Shape<K>, info: nat, node: Node<K, V>, i: nat) {
    if info == 0 then node.Vacant?
    else node.Node? && Home(s, node.key) <= i && info == Probe(s, node.key, i) && info <= 255
  }

  /** The local law. */
  ghost predicate Ordered<K>(s: Shape<K>, info: seq<nat>)
    requires |info| >= s.n
  {
    forall i :: 0 < i < s.n ==> StepOk(s, info, i)
  }

  /** An entry away from home ranks at most one unit above its left neighbour. */
  ghost predicate StepOk<K>(s: Shape<K>, info: seq<nat>, i: int)
    requires 0 < i < |info|
  {
    info[i] >= 2 * s.inc ==> info[i] <= info[i - 1] + s.inc
  }

  /** Every stored info byte leaves room for one more step of distance. */
  ghost predicate Roomy<K>(s: Shape<K>, info: seq<nat>)
    requires |info| >= s.n
  {
    forall i :: 0 <= i < s.n ==> info[i] + s.inc <= 0xFF
  }

  ghost predicate Distinct<K, V>(nodes: seq<Node<K, V>>) {
    forall i, j :: 0 <= i < j < |nodes| && nodes[i].Node? && nodes[j].Node? ==> nodes[i].key != nodes[j].key
  }

  ghost predicate Layout<K, V>(s: Shape<K>, info: seq<nat>, nodes: seq<Node<K, V>>) {
    && Units(s) && Framed(s, info) && |nodes| == s.n
    && (forall i :: 0 <= i < s.n ==> EntryOk(s, info[i], nodes[i], i))
    && Ordered(s, info)
    && Distinct(nodes)
  }

  /** `m` is the finite map the occupied slots spell out. */
  ghost predicate Represents<K, V>(nodes: seq<Node<K, V>>, m: map<K, V>) {
    && (forall i :: 0 <= i < |nodes| && nodes[i].Node? ==> nodes[i].key in m && m[nodes[i].key] == nodes[i].val)
    && (forall k :: k in m ==> Has(nodes, k))
  }

  ghost predicate Has<K, V>(nodes: seq<Node<K, V>>, k: K) {
    exists i :: 0 <= i < |nodes| && nodes[i].Node? && nodes[i].key == k
  }

  // ---------------------------------------------------------------- counting keys

  ghost function KeysIn<K, V>(nodes: seq<Node<K, V>>, a: nat, b: nat): (keys: set<K>)
    requires a <= b <= |nodes|
  {
    set i | a <= i < b && nodes[i].Node? :: nodes[i].key
  }

  lemma {:induction false} KeysInCount<K, V>(nodes: seq<Node<K, V>>, a: nat, b: nat)
    requires a <= b <= |nodes| && Distinct(nodes) && (forall i :: a <= i < b ==> nodes[i].Node?)
    ensures |KeysIn(nodes, a, b)| == b - a
  {
    if a < b {
      KeysInCount(nodes, a, b - 1);
      var last := nodes[b - 1].key;
      forall i | a <= i < b - 1 ensures nodes[i].key != last {}
      assert last !in KeysIn(nodes, a, b - 1);
      KeysInLast(nodes, a, b);
    }
  }

  lemma KeysInLast<K, V>(nodes: seq<Node<K, V>>, a: nat, b: nat)
    requires a < b <= |nodes| && nodes[b - 1].Node?
    ensures KeysIn(nodes, a, b) == KeysIn(nodes, a, b - 1) + {nodes[b - 1].key}
  {
    forall k | k in KeysIn(nodes, a, b) ensures k in KeysIn(nodes, a, b - 1) + {nodes[b - 1].key} {
      var i :| a <= i < b && nodes[i].Node? && nodes[i].key == k;
      assert i < b - 1 ==> k in KeysIn(nodes, a, b - 1);
    }
  }

  lemma SubsetCount<T>(a: set<T>, b: set<T>)
    requires a <= b
    ensures |a| <= |b|
  {
    assert b == a + (b - a);
  }

  // ---------------------------------------------------------------- info arithmetic

  lemma BitsBelowInc<K>(s: Shape<K>, k: K)
    requires Units(s)
    ensures HashBits(s, k) < s.inc
  {
    AndBelow(s.hasher(s.mult, k), 31);
    var p := Pow2(s.shift);
    Quotient(BitAnd(s.hasher(s.mult, k), 31), p);
    if HashBits(s, k) >= s.inc {
      assert false;
    }
  }

  lemma {:induction false} InfoGrows(inc: nat, bits: nat, dist: nat)
    ensures InfoAt(inc, bits, dist) >= inc
    ensures dist > 0 ==> InfoAt(inc, bits, dist) >= 2 * inc
    ensures inc >= 2 ==> InfoAt(inc, bits, dist) >= 2 * dist + 2
  {
    if dist > 0 {
      InfoGrows(inc, bits, dist - 1);
    }
  }

  /** An info byte says whether its entry is at home. */
  lemma HomeOrAway<K>(s: Shape<K>, k: K, i: nat)
    requires Units(s) && Home(s, k) <= i
    ensures Probe(s, k, i) >= s.inc
    ensures Probe(s, k, i) >= 2 * s.inc <==> i > Home(s, k)
    ensures Probe(s, k, i) >= 2 * (i - Home(s, k)) + 2
    ensures Probe(s, k, i + 1) == Probe(s, k, i) + s.inc
  {
    BitsBelowInc(s, k);
    InfoGrows(s.inc, HashBits(s, k), i - Home(s, k));
  }

  // ---------------------------------------------------------------- lookups

  /**
   On the way from home to where an entry sits, every slot's info byte is at least what the entry's key
   would have there. So a probe that meets a smaller byte may stop.
   */
  lemma {:induction false} NoEarlyMiss<K, V>(s: Shape<K>, info: seq<nat>, nodes: seq<Node<K, V>>, p: nat, i: nat)
    requires Layout(s, info, nodes)
    requires p < s.n && nodes[p].Node? && Home(s, nodes[p].key) <= i <= p
    ensures info[i] >= Probe(s, nodes[p].key, i)
    decreases p - i
  {
    var k := nodes[p].key;
    if i == p {
      assert EntryOk(s, info[p], nodes[p], p);
    } else {
      NoEarlyMiss(s, info, nodes, p, i + 1);
      HomeOrAway(s, k, i);
      HomeOrAway(s, k, i + 1);
      assert info[i + 1] >= 2 * s.inc;
      assert StepOk(s, info, i + 1);
    }
  }

  /** An info byte in terms of distance and hash bits. */
  lemma {:induction false} InfoIs(inc: nat, bits: nat, dist: nat)
    ensures InfoAt(inc, bits, dist) == Times(inc, dist + 1) + bits
  {
    if dist > 0 {
      InfoIs(inc, bits, dist - 1);
    }
  }

  /** Where the law leads: entries are in order of their home slots, and on a tie of their hash bits, descending. */
  lemma EntriesSorted<K, V>(s: Shape<K>, info: seq<nat>, nodes: seq<Node<K, V>>, i: nat, j: nat)
    requires Layout(s, info, nodes) && i < j < s.n && nodes[i].Node? && nodes[j].Node?
    ensures Home(s, nodes[i].key) <= Home(s, nodes[j].key)
    ensures Home(s, nodes[i].key) == Home(s, nodes[j].key) ==> HashBits(s, nodes[i].key) >= HashBits(s, nodes[j].key)
  {
    hide Home, HashBits, Ordered, Distinct;
    var a, b := nodes[i].key, nodes[j].key;
    assert EntryOk(s, info[i], nodes[i], i) && EntryOk(s, info[j], nodes[j], j);
    if Home(s, b) <= i {
      NoEarlyMiss(s, info, nodes, j, i);
      InfoIs(s.inc, HashBits(s, a), i - Home(s, a));
      InfoIs(s.inc, HashBits(s, b), i - Home(s, b));
      BitsBelowInc(s, a);
      if Home(s, a) > Home(s, b) {
        TimesMore(s.inc, i - Home(s, a) + 1, i - Home(s, b) + 1);
      }
    }
  }

  lemma {:induction false} TimesMore(inc: nat, a: nat, b: nat)
    requires a < b
    ensures Times(inc, a) + inc <= Times(inc, b)
  {
    if a + 1 < b {
      TimesMore(inc, a, b - 1);
    }
  }

  /** No slot is empty from an entry's home to the entry. */
  lemma NoGaps<K, V>(s: Shape<K>, info: seq<nat>, nodes: seq<Node<K, V>>, p: nat, i: nat)
    requires Layout(s, info, nodes) && p < s.n && nodes[p].Node? && Home(s, nodes[p].key) <= i <= p
    ensures info[i] != 0 && nodes[i].Node?
  {
    NoEarlyMiss(s, info, nodes, p, i);
    HomeOrAway(s, nodes[p].key, i);
    assert EntryOk(s, info[i], nodes[i], i);
  }

  /** So an entry is never further from home than there are other entries. */
  lemma FarNeedsMany<K, V>(s: Shape<K>, info: seq<nat>, nodes: seq<Node<K, V>>, m: map<K, V>, p: nat)
    requires Layout(s, info, nodes) && Represents(nodes, m) && p < s.n && nodes[p].Node?
    ensures Home(s, nodes[p].key) <= p && p - Home(s, nodes[p].key) < |m.Keys|
  {
    hide Home;
    var home := Home(s, nodes[p].key);
    assert EntryOk(s, info[p], nodes[p], p);
    forall i | home <= i < p + 1 ensures nodes[i].Node? {
      NoGaps(s, info, nodes, p, i);
    }
    KeysInCount(nodes, home, p + 1);
    SubsetCount(KeysIn(nodes, home, p + 1), m.Keys);
  }

  /** The entry at `p` is at least 126 slots from home. */
  ghost predicate Far<K, V>(s: Shape<K>, nodes: seq<Node<K, V>>, p: nat) {
    p < |nodes| && nodes[p].Node? && Home(s, nodes[p].key) + 126 <= p
  }

  /** Only as far from home does an info byte leave no room at the finest unit; and no coarser unit reaches that far. */
  lemma FarExactly<K, V>(s: Shape<K>, info: seq<nat>, nodes: seq<Node<K, V>>, p: nat)
    requires Layout(s, info, nodes) && p < s.n
    ensures Far(s, nodes, p) <==> s.inc <= 2 && info[p] + s.inc > 0xFF
  {
    hide Home, HashBits, Ordered, Distinct;
    assert EntryOk(s, info[p], nodes[p], p);
    if nodes[p].Node? {
      var k := nodes[p].key;
      BitsBelowInc(s, k);
      InfoIs(s.inc, HashBits(s, k), p - Home(s, k));
      TimesIsProduct(s.inc, p - Home(s, k) + 1);
      if s.inc >= 3 && Far(s, nodes, p) {
        MulMonotone(3, s.inc, p - Home(s, k) + 1);
      }
    }
  }

  /** The keys with a home slot from `a` to `b`. */
  ghost function HomedIn<K>(s: Shape<K>, keys: set<K>, a: nat, b: nat): set<K> {
    set k | k in keys && a <= Home(s, k) <= b
  }

  /** Some window of home slots has at least 126 keys more than slots. */
  ghost predicate Crowded<K>(s: Shape<K>, keys: set<K>) {
    exists a: nat, b: nat :: a <= b && |HomedIn(s, keys, a, b)| >= b - a + 127
  }

  lemma KeysInAtMost<K, V>(nodes: seq<Node<K, V>>, a: nat, b: nat)
    requires a <= b <= |nodes|
    ensures |KeysIn(nodes, a, b)| <= b - a
    decreases b - a
  {
    if a < b {
      KeysInAtMost(nodes, a, b - 1);
      if nodes[b - 1].Node? {
        KeysInLast(nodes, a, b);
      } else {
        assert KeysIn(nodes, a, b) == KeysIn(nodes, a, b - 1);
      }
    } else {
      assert KeysIn(nodes, a, b) == {};
    }
  }

  /** A crowded window pushes some entry far from home. */
  lemma CrowdedMeansFar<K, V>(s: Shape<K>, info: seq<nat>, nodes: seq<Node<K, V>>, m: map<K, V>) returns (p: nat)
    requires Layout(s, info, nodes) && Represents(nodes, m) && Crowded(s, m.Keys)
    ensures p < s.n && Far(s, nodes, p)
  {
    hide Home, Ordered, Distinct;
    var a: nat, b: nat :| a <= b && |HomedIn(s, m.Keys, a, b)| >= b - a + 127;
    var end := if b + 126 < s.n then b + 126 else s.n;
    if forall i :: 0 <= i < s.n ==> !Far(s, nodes, i) {
      var lo := if a <= end then a else end;
      forall k | k in HomedIn(s, m.Keys, a, b) ensures k in KeysIn(nodes, lo, end) {
        var i :| 0 <= i < |nodes| && nodes[i].Node? && nodes[i].key == k;
        assert EntryOk(s, info[i], nodes[i], i) && !Far(s, nodes, i);
      }
      SubsetCount(HomedIn(s, m.Keys, a, b), KeysIn(nodes, lo, end));
      KeysInAtMost(nodes, lo, end);
      assert false;
    }
    p :| 0 <= p < s.n && Far(s, nodes, p);
  }

  /** Where the run of occupied slots up to `h` begins. */
  lemma RunStart<K, V>(nodes: seq<Node<K, V>>, h: nat) returns (a: nat)
    requires h < |nodes| && nodes[h].Node?
    ensures a <= h && (forall i :: a <= i <= h ==> nodes[i].Node?) && (a == 0 || nodes[a - 1].Vacant?)
  {
    if h == 0 || nodes[h - 1].Vacant? {
      a := h;
    } else {
      a := RunStart(nodes, h - 1);
    }
  }

  /** An entry far from home means a crowded window: from where the run of entries up to it begins to its home. */
  lemma FarMeansCrowded<K, V>(s: Shape<K>, info: seq<nat>, nodes: seq<Node<K, V>>, m: map<K, V>, p: nat)
    requires Layout(s, info, nodes) && Represents(nodes, m) && p < s.n && Far(s, nodes, p)
    ensures Crowded(s, m.Keys)
  {
    hide Home, Ordered, HashBits;
    var h := Home(s, nodes[p].key);
    NoGaps(s, info, nodes, p, h);
    var a := RunStart(nodes, h);
    forall i | a <= i < p + 1 ensures nodes[i].Node? && a <= Home(s, nodes[i].key) <= h {
      if i > h {
        NoGaps(s, info, nodes, p, i);
      }
      assert EntryOk(s, info[i], nodes[i], i);
      if Home(s, nodes[i].key) < a {
        NoGaps(s, info, nodes, i, a - 1);
      }
      if i < p {
        EntriesSorted(s, info, nodes, i, p);
      }
    }
    KeysInCount(nodes, a, p + 1);
    SubsetCount(KeysIn(nodes, a, p + 1), HomedIn(s, m.Keys, a, h));
  }

  /** A crowded window has at least 127 keys. */
  lemma CrowdedNeedsMany<K>(s: Shape<K>, keys: set<K>)
    requires Crowded(s, keys)
    ensures |keys| >= 127
  {
    var a: nat, b: nat :| a <= b && |HomedIn(s, keys, a, b)| >= b - a + 127;
    SubsetCount(HomedIn(s, keys, a, b), keys);
  }

  /** So with the finest unit, an info byte without room for one more means at least 127 entries. */
  lemma TightNeedsMany<K, V>(s: Shape<K>, info: seq<nat>, nodes: seq<Node<K, V>>, m: map<K, V>, p: nat)
    requires Layout(s, info, nodes) && Represents(nodes, m) && p < s.n && s.inc <= 2 && info[p] + s.inc > 0xFF
    ensures |m.Keys| >= 127
  {
    FarExactly(s, info, nodes, p);
    FarMeansCrowded(s, info, nodes, m, p);
    CrowdedNeedsMany(s, m.Keys);
  }

  lemma CrowdedMonotone<K>(s: Shape<K>, s': Shape<K>, keys: set<K>, keys': set<K>)
    requires Crowded(s, keys) && keys <= keys' && s'.mask == s.mask && s'.hasher == s.hasher && s'.mult == s.mult
    ensures Crowded(s', keys')
  {
    var a: nat, b: nat :| a <= b && |HomedIn(s, keys, a, b)| >= b - a + 127;
    SubsetCount(HomedIn(s, keys, a, b), HomedIn(s', keys', a, b));
  }

  /** A key is stored only at a slot whose info byte is the key's probe there. */
  lemma FoundByInfo<K, V>(s: Shape<K>, info: seq<nat>, nodes: seq<Node<K, V>>, k: K, i: nat)
    requires Layout(s, info, nodes) && i < s.n && nodes[i].Node? && nodes[i].key == k
    ensures Home(s, k) <= i && info[i] == Probe(s, k, i)
  {
    assert EntryOk(s, info[i], nodes[i], i);
  }

  /** Key `k` is not in slots `[home, i)`. */
  ghost predicate NotBefore<K, V>(s: Shape<K>, nodes: seq<Node<K, V>>, k: K, i: nat) {
    forall j :: 0 <= j < i && j < |nodes| && nodes[j].Node? ==> nodes[j].key != k
  }

  /** When a probe has passed every slot before `i` and meets a smaller info byte, the key is absent. */
  lemma MissMeansAbsent<K, V>(s: Shape<K>, info: seq<nat>, nodes: seq<Node<K, V>>, k: K, i: nat)
    requires Layout(s, info, nodes) && Home(s, k) <= i <= s.n
    requires NotBefore(s, nodes, k, i)
    requires i < s.n ==> info[i] < Probe(s, k, i)
    ensures !Has(nodes, k)
  {
    if Has(nodes, k) {
      var p :| 0 <= p < |nodes| && nodes[p].Node? && nodes[p].key == k;
      NoEarlyMiss(s, info, nodes, p, i);
    }
  }

  /** Nothing is stored before its home. */
  lemma NotBeforeHome<K, V>(s: Shape<K>, info: seq<nat>, nodes: seq<Node<K, V>>, k: K)
    requires Layout(s, info, nodes)
    ensures NotBefore(s, nodes, k, Home(s, k))
  {
    forall j | 0 <= j < Home(s, k) && j < |nodes| && nodes[j].Node? ensures nodes[j].key != k {
      assert EntryOk(s, info[j], nodes[j], j);
    }
  }

  /** A probe never runs past the sentinel: there its info exceeds the sentinel's. */
  lemma ProbeStopsAtEnd<K>(s: Shape<K>, info: seq<nat>, k: K, i: nat)
    requires Units(s) && Framed(s, info) && Home(s, k) <= i <= s.n + 1
    ensures i >= s.n ==> info[i] < Probe(s, k, i)
  {
    HomeOrAway(s, k, i);
  }

  // ---------------------------------------------------------------- insertion

  /** Slots `[ins, e)` moved up by one into the empty slot `e`, and a new entry at `ins`. */
  ghost predicate ShiftedUp<K, V>(s: Shape<K>, info: seq<nat>, nodes: seq<Node<K, V>>, ins: nat, e: nat,
                                  byte: nat, node: Node<K, V>, info': seq<nat>, nodes': seq<Node<K, V>>)
  {
    && |info'| == |info| && |nodes'| == |nodes| && ins <= e < |nodes| <= |info|
    && (forall j :: 0 <= j < |info| && (j < ins || j > e) ==> info'[j] == info[j])
    && (forall j :: 0 <= j < |nodes| && (j < ins || j > e) ==> nodes'[j] == nodes[j])
    && (forall j :: ins < j <= e ==> info'[j] == info[j - 1] + s.inc)
    && (forall j :: ins < j <= e ==> nodes'[j] == nodes[j - 1])
    && info'[ins] == byte && nodes'[ins] == node
  }

  /** Where a new key belongs: every slot from its home up to `ins` outranks it, the one at `ins` does not. */
  ghost predicate InsertionPoint<K>(s: Shape<K>, info: seq<nat>, k: K, ins: nat)
    requires |info| >= s.n
  {
    && Home(s, k) <= ins < s.n && info[ins] < Probe(s, k, ins)
    && (forall j :: Home(s, k) <= j < ins ==> info[j] >= Probe(s, k, j))
  }

  lemma ShiftUpOrdered<K, V>(s: Shape<K>, info: seq<nat>, nodes: seq<Node<K, V>>, ins: nat, e: nat,
                             node: Node<K, V>, info': seq<nat>, nodes': seq<Node<K, V>>)
    requires Layout(s, info, nodes) && node.Node? && InsertionPoint(s, info, node.key, ins)
    requires ins <= e < s.n && info[e] == 0 && (forall j :: ins <= j < e ==> info[j] != 0)
    requires ShiftedUp(s, info, nodes, ins, e, Probe(s, node.key, ins), node, info', nodes')
    ensures Ordered(s, info')
  {
    forall i | 0 < i < s.n ensures StepOk(s, info', i) {
      if i == ins {
        HomeOrAway(s, node.key, ins);
        if ins > Home(s, node.key) {
          HomeOrAway(s, node.key, ins - 1);
        }
      } else if ins < i <= e {
        if i - 1 > ins {
          assert StepOk(s, info, i - 1);
          assert EntryOk(s, info[i - 2], nodes[i - 2], i - 2);
          HomeOrAway(s, nodes[i - 2].key, i - 2);
        }
      } else {
        assert StepOk(s, info, i);
      }
    }
  }

  lemma ShiftUpEntries<K, V>(s: Shape<K>, info: seq<nat>, nodes: seq<Node<K, V>>, ins: nat, e: nat,
                             node: Node<K, V>, info': seq<nat>, nodes': seq<Node<K, V>>)
    requires Layout(s, info, nodes) && node.Node? && InsertionPoint(s, info, node.key, ins)
    requires ins <= e < s.n && info[e] == 0 && (forall j :: ins <= j < e ==> info[j] != 0)
    requires forall j :: ins <= j < e ==> info[j] + s.inc <= 255
    requires Probe(s, node.key, ins) <= 255
    requires ShiftedUp(s, info, nodes, ins, e, Probe(s, node.key, ins), node, info', nodes')
    ensures Framed(s, info') && forall i :: 0 <= i < s.n ==> EntryOk(s, info'[i], nodes'[i], i)
  {
    forall i | 0 <= i < s.n ensures EntryOk(s, info'[i], nodes'[i], i) {
      if ins < i <= e {
        assert EntryOk(s, info[i - 1], nodes[i - 1], i - 1);
        HomeOrAway(s, nodes[i - 1].key, i - 1);
      } else if i == ins {
        HomeOrAway(s, node.key, ins);
      } else {
        assert EntryOk(s, info[i], nodes[i], i);
      }
    }
  }

  lemma ShiftUpContents<K, V>(s: Shape<K>, info: seq<nat>, nodes: seq<Node<K, V>>, ins: nat, e: nat,
                              byte: nat, node: Node<K, V>, info': seq<nat>, nodes': seq<Node<K, V>>, m: map<K, V>)
    requires Distinct(nodes) && node.Node? && !Has(nodes, node.key) && Represents(nodes, m)
    requires ShiftedUp(s, info, nodes, ins, e, byte, node, info', nodes') && nodes[e].Vacant?
    ensures Distinct(nodes') && Represents(nodes', m[node.key := node.val]) && node.key !in m
  {
    forall i, j | 0 <= i < j < |nodes'| && nodes'[i].Node? && nodes'[j].Node?
      ensures nodes'[i].key != nodes'[j].key
    {
      var i0 := if ins < i <= e then i - 1 else i;
      var j0 := if ins < j <= e then j - 1 else j;
      assert i != ins ==> nodes'[i] == nodes[i0];
      assert j != ins ==> nodes'[j] == nodes[j0];
    }
    forall k | k in m[node.key := node.val] ensures Has(nodes', k) {
      if k == node.key {
        assert nodes'[ins].key == k;
      } else {
        var i :| 0 <= i < |nodes| && nodes[i].Node? && nodes[i].key == k;
        var i1 := if ins <= i < e then i + 1 else i;
        assert nodes'[i1] == nodes[i];
      }
    }
    forall i | 0 <= i < |nodes'| && nodes'[i].Node?
      ensures nodes'[i].key in m[node.key := node.val] && m[node.key := node.val][nodes'[i].key] == nodes'[i].val
    {
      var i0 := if ins < i <= e then i - 1 else i;
      if i != ins {
        assert nodes'[i] == nodes[i0] && nodes[i0].key in m && Has(nodes, nodes[i0].key);
      }
    }
  }

  /** Inserting a new key where it belongs keeps the layout and adds exactly that key. */
  lemma InsertKeepsLayout<K, V>(s: Shape<K>, info: seq<nat>, nodes: seq<Node<K, V>>, ins: nat, e: nat,
                                node: Node<K, V>, info': seq<nat>, nodes': seq<Node<K, V>>, m: map<K, V>)
    requires Layout(s, info, nodes) && Represents(nodes, m)
    requires node.Node? && !Has(nodes, node.key) && InsertionPoint(s, info, node.key, ins)
    requires ins <= e < s.n && info[e] == 0 && (forall j :: ins <= j < e ==> info[j] != 0)
    requires forall j :: ins <= j < e ==> info[j] + s.inc <= 255
    requires Probe(s, node.key, ins) <= 255
    requires ShiftedUp(s, info, nodes, ins, e, Probe(s, node.key, ins), node, info', nodes')
    ensures Layout(s, info', nodes') && node.key !in m && Represents(nodes', m[node.key := node.val])
  {
    assert EntryOk(s, info[e], nodes[e], e);
    ShiftUpOrdered(s, info, nodes, ins, e, node, info', nodes');
    ShiftUpEntries(s, info, nodes, ins, e, node, info', nodes');
    ShiftUpContents(s, info, nodes, ins, e, Probe(s, node.key, ins), node, info', nodes', m);
  }

  /** An insertion point's info fits a byte as long as every stored info byte leaves room for one more step. */
  lemma InsertionInfoFits<K, V>(s: Shape<K>, info: seq<nat>, nodes: seq<Node<K, V>>, k: K, ins: nat)
    requires Layout(s, info, nodes) && InsertionPoint(s, info, k, ins)
    requires forall j :: 0 <= j < s.n ==> info[j] + s.inc <= 255
    ensures Probe(s, k, ins) <= 255
  {
    BitsBelowInc(s, k);
    HomeOrAway(s, k, ins);
    if ins > Home(s, k) {
      HomeOrAway(s, k, ins - 1);
    } else {
      IncAtMost32(s);
    }
  }

  lemma IncAtMost32<K>(s: Shape<K>)
    requires Units(s)
    ensures s.inc <= 32
  {
    MulAtLeast(Pow2(s.shift), s.inc);
  }

  /** After an equal info byte the next one is no larger than the probe's next value. */
  lemma EqualThenNotLess<K>(s: Shape<K>, info: seq<nat>, k: K, i: nat)
    requires Units(s) && Framed(s, info) && Ordered(s, info) && Home(s, k) <= i < s.n && info[i] == Probe(s, k, i)
    ensures info[i + 1] <= Probe(s, k, i + 1)
  {
    HomeOrAway(s, k, i);
    HomeOrAway(s, k, i + 1);
    if i + 1 < s.n {
      assert StepOk(s, info, i + 1);
    }
  }

  /** An empty table. */
  lemma EmptyLayout<K, V>(s: Shape<K>, info: seq<nat>, nodes: seq<Node<K, V>>)
    requires Units(s) && Framed(s, info) && |nodes| == s.n
    requires (forall i :: 0 <= i < s.n ==> info[i] == 0) && (forall i :: 0 <= i < s.n ==> nodes[i] == Vacant)
    ensures Layout(s, info, nodes) && Represents(nodes, map[]) && Roomy(s, info)
  {
    IncAtMost32(s);
  }

  // ---------------------------------------------------------------- room

  /**
   With `extra` overflow slots behind the home slots, either 255 of them or more than there are entries,
   the slots from any home to the end are never all taken.
   */
  lemma TableHasRoom<K, V>(s: Shape<K>, info: seq<nat>, nodes: seq<Node<K, V>>, m: map<K, V>, home: nat)
    requires Layout(s, info, nodes) && Represents(nodes, m) && home <= s.mask
    requires s.n == s.mask + 1 + 255 || |m.Keys| < s.n - (s.mask + 1)
    ensures exists j :: home <= j < s.n && info[j] == 0
  {
    if forall j :: home <= j < s.n ==> info[j] != 0 {
      forall i | s.mask + 1 <= i < s.n ensures nodes[i].Node? {
        assert EntryOk(s, info[i], nodes[i], i);
      }
      if s.n == s.mask + 1 + 255 {
        var last := s.n - 1;
        assert EntryOk(s, info[last], nodes[last], last);
        HomeOrAway(s, nodes[last].key, last);
      } else {
        KeysInCount(nodes, s.mask + 1, s.n);
        SubsetCount(KeysIn(nodes, s.mask + 1, s.n), m.Keys);
      }
      assert false;
    }
  }

  // ---------------------------------------------------------------- deletion

  /** Slots `(p, q]` moved down by one over slot `p`; slot `q` becomes empty. */
  ghost predicate ShiftedDown<K, V>(s: Shape<K>, info: seq<nat>, nodes: seq<Node<K, V>>, p: nat, q: nat,
                                    info': seq<nat>, nodes': seq<Node<K, V>>)
  {
    && |info'| == |info| && |nodes'| == |nodes| && p <= q < |nodes| < |info|
    && (forall j :: 0 <= j < |info| && (j < p || j > q) ==> info'[j] == info[j])
    && (forall j :: 0 <= j < |nodes| && (j < p || j > q) ==> nodes'[j] == nodes[j])
    && (forall j :: p <= j < q ==> info'[j] == info[j + 1] - s.inc)
    && (forall j :: p <= j < q ==> nodes'[j] == nodes[j + 1])
    && info'[q] == 0 && nodes'[q] == Vacant
  }

  /** The entries right of `p`, up to `q`, are away from home; the one after `q` is not. */
  ghost predicate RunEnds<K>(s: Shape<K>, info: seq<nat>, p: nat, q: nat) {
    && p <= q < |info| - 1
    && (forall j :: p < j <= q ==> info[j] >= 2 * s.inc) && info[q + 1] < 2 * s.inc
  }

  /**
   Moving the run of displaced entries back over a removed one keeps the layout, drops exactly that key, and
   uses up no headroom.
   */
  lemma EraseKeepsLayout<K, V>(s: Shape<K>, info: seq<nat>, nodes: seq<Node<K, V>>, p: nat, q: nat,
                               info': seq<nat>, nodes': seq<Node<K, V>>, m: map<K, V>)
    requires Layout(s, info, nodes) && Represents(nodes, m)
    requires p <= q < s.n && nodes[p].Node?
    requires RunEnds(s, info, p, q) && ShiftedDown(s, info, nodes, p, q, info', nodes')
    ensures Layout(s, info', nodes') && nodes[p].key in m && Represents(nodes', m - {nodes[p].key})
    ensures Roomy(s, info) ==> Roomy(s, info')
  {
    hide EntryOk, Ordered, Distinct, Represents, Home;
    EraseEntries(s, info, nodes, p, q, info', nodes');
    EraseContents(s, info, nodes, p, q, info', nodes', m);
    IncAtMost32(s);
  }

  lemma EraseEntries<K, V>(s: Shape<K>, info: seq<nat>, nodes: seq<Node<K, V>>, p: nat, q: nat,
                           info': seq<nat>, nodes': seq<Node<K, V>>)
    requires Layout(s, info, nodes) && p <= q < s.n
    requires RunEnds(s, info, p, q)
    requires ShiftedDown(s, info, nodes, p, q, info', nodes')
    ensures Framed(s, info') && Ordered(s, info')
    ensures forall i :: 0 <= i < s.n ==> EntryOk(s, info'[i], nodes'[i], i)
  {
    EraseOrdered(s, info, nodes, p, q, info', nodes');
    forall i | 0 <= i < s.n ensures EntryOk(s, info'[i], nodes'[i], i) {
      if p <= i < q {
        assert EntryOk(s, info[i + 1], nodes[i + 1], i + 1);
        HomeOrAway(s, nodes[i + 1].key, i + 1);
        HomeOrAway(s, nodes[i + 1].key, i);
      } else {
        assert EntryOk(s, info[i], nodes[i], i);
      }
    }
  }

  lemma EraseOrdered<K, V>(s: Shape<K>, info: seq<nat>, nodes: seq<Node<K, V>>, p: nat, q: nat,
                           info': seq<nat>, nodes': seq<Node<K, V>>)
    requires Layout(s, info, nodes) && p <= q < s.n
    requires RunEnds(s, info, p, q)
    requires ShiftedDown(s, info, nodes, p, q, info', nodes')
    ensures Ordered(s, info')
  {
    forall i | 0 < i < s.n ensures StepOk(s, info', i) {
      assert StepOk(s, info, i);
      if p <= i < q {
        assert StepOk(s, info, i + 1);
      }
    }
  }

  lemma EraseContents<K, V>(s: Shape<K>, info: seq<nat>, nodes: seq<Node<K, V>>, p: nat, q: nat,
                            info': seq<nat>, nodes': seq<Node<K, V>>, m: map<K, V>)
    requires Distinct(nodes) && Represents(nodes, m) && p < |nodes| && nodes[p].Node?
    requires ShiftedDown(s, info, nodes, p, q, info', nodes')
    ensures Distinct(nodes') && nodes[p].key in m && Represents(nodes', m - {nodes[p].key})
  {
    forall i, j | 0 <= i < j < |nodes'| && nodes'[i].Node? && nodes'[j].Node?
      ensures nodes'[i].key != nodes'[j].key
    {
      var i0 := if p <= i < q then i + 1 else i;
      var j0 := if p <= j < q then j + 1 else j;
      assert nodes'[i] == nodes[i0] && nodes'[j] == nodes[j0];
    }
    forall k | k in m - {nodes[p].key} ensures Has(nodes', k) {
      var i :| 0 <= i < |nodes| && nodes[i].Node? && nodes[i].key == k;
      var i1 := if p < i <= q then i - 1 else i;
      assert nodes'[i1] == nodes[i];
    }
    forall i | 0 <= i < |nodes'| && nodes'[i].Node?
      ensures nodes'[i].key in m && nodes'[i].key != nodes[p].key && m[nodes'[i].key] == nodes'[i].val
    {
      var i0 := if p <= i < q then i + 1 else i;
      assert nodes'[i] == nodes[i0];
    }
  }

  lemma BytesFit<K, V>(s: Shape<K>, info: seq<nat>, nodes: seq<Node<K, V>>)
    requires Layout(s, info, nodes)
    ensures |info| == s.n + 8 && |nodes| == s.n && info[s.n] < 2 * s.inc && info[s.n] <= 255
    ensures forall i :: 0 <= i < s.n ==> info[i] <= 255
    ensures forall i :: s.n < i < s.n + 8 ==> info[i] == 0
  {
    forall i | 0 <= i < s.n ensures info[i] <= 255 {
      assert EntryOk(s, info[i], nodes[i], i);
    }
  }

  // ---------------------------------------------------------------- giving hash bits up to distance

  /** The shape after `try_increase_info`: half the unit, one hash bit fewer. */
  function Finer<K>(s: Shape<K>): Shape<K> {
    s.(inc := s.inc / 2, shift := s.shift + 1)
  }

  lemma FinerUnits<K>(s: Shape<K>)
    requires Units(s) && s.inc > 2
    ensures Units(Finer(s)) && s.inc == 2 * Finer(s).inc
  {
    var p := Pow2(s.shift);
    assert s.shift <= 4 ==> p in {1, 2, 4, 8, 16} by {
      assert Pow2(0) == 1 && Pow2(1) == 2 && Pow2(2) == 4 && Pow2(3) == 8 && Pow2(4) == 16;
    }
    if p == 1 {
    } else if p == 2 {
    } else if p == 4 {
    } else if p == 8 {
    } else {
    }
    assert s.inc * p == 32;
    assert s.shift != 4;
  }

  lemma FinerBits<K>(s: Shape<K>, k: K)
    requires Units(s)
    ensures HashBits(Finer(s), k) == HashBits(s, k) / 2
  {
    var h, p := BitAnd(s.hasher(s.mult, k), 31), Pow2(s.shift);
    assert Pow2(s.shift + 1) == 2 * p;
    DivTwice(h, p, 2 * p);
  }

  lemma DivTwice(h: nat, p: nat, d: nat)
    requires p > 0 && d == 2 * p
    ensures h / d == (h / p) / 2
  {
    var u, v, r := (h / p) / 2, (h / p) % 2, h % p;
    Quotient(h, p);
    assert p * (2 * u + v) == 2 * (p * u) + p * v;
    assert u * d == 2 * (p * u);
    if v == 0 {
      ModUnique(h, d, u, r);
    } else {
      ModUnique(h, d, u, p + r);
    }
  }

  lemma {:induction false} InfoHalves(inc: nat, bits: nat, dist: nat)
    requires inc % 2 == 0
    ensures InfoAt(inc, bits, dist) / 2 == InfoAt(inc / 2, bits / 2, dist)
  {
    if dist > 0 {
      InfoHalves(inc, bits, dist - 1);
    }
  }

  /** Halving every info byte is the layout of the finer shape: same entries, same slots. */
  lemma HalvingKeepsLayout<K, V>(s: Shape<K>, info: seq<nat>, nodes: seq<Node<K, V>>, info': seq<nat>)
    requires Layout(s, info, nodes) && s.inc > 2
    requires Framed(s, info') && forall i :: 0 <= i < s.n ==> info'[i] == info[i] / 2
    ensures Layout(Finer(s), info', nodes)
    ensures Roomy(Finer(s), info')
  {
    FinerUnits(s);
    IncAtMost32(s);
    var f := Finer(s);
    forall i | 0 < i < s.n ensures StepOk(f, info', i) {
      assert StepOk(s, info, i);
    }
    forall i | 0 <= i < s.n ensures EntryOk(f, info'[i], nodes[i], i) && info'[i] <= 127 {
      assert EntryOk(s, info[i], nodes[i], i);
      if info[i] != 0 {
        var k := nodes[i].key;
        FinerBits(s, k);
        InfoHalves(s.inc, HashBits(s, k), i - Home(s, k));
        HomeOrAway(s, k, i);
      }
    }
  }
}
