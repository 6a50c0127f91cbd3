/**
 What inserting, halving, rehashing and growing make of a table, as functions of all it holds; and exactly when
 growing fails.
 */
module RobinHoodGrowth {
  import opened Bits
  import opened RobinHoodLayout

  const INITIAL_NUM_ELEMENTS: nat := 8
  const INITIAL_INFO_INC: nat := 32

  /** What stays the same for the life of a table. */
  datatype Rules<!K> = Rules(hasher: (nat, K) -> nat, loadFactor100: nat)

  /** All that a table holds. */
  datatype Image<K, V> = Image(info: seq<nat>, nodes: seq<Node<K, V>>, num: nat, mask: nat, max: nat, inc: nat, shift: nat,
                               mult: nat)

  /** How many entries `n` home slots allow. */
  function Allowance<K>(r: Rules<K>, n: nat): nat {
    Times(n, r.loadFactor100) / 100
  }

  function ShapeOf<K, V>(r: Rules<K>, v: Image<K, V>): Shape<K> {
    Shape(|v.nodes|, v.mask, v.inc, v.shift, r.hasher, v.mult)
  }

  /** Of a shape, what decides the home slots. */
  function Place<K>(r: Rules<K>, mask: nat, mult: nat): Shape<K> {
    Shape(0, mask, 0, 0, r.hasher, mult)
  }

  // ---------------------------------------------------------------- inserting

  /** The first slot from `i` on that the key outranks. */
  ghost function FirstBelow<K>(s: Shape<K>, info: seq<nat>, k: K, i: nat): (ins: nat)
    requires Home(s, k) <= i
    ensures i <= ins
    decreases |info| - i
  {
    if i >= |info| || info[i] < Probe(s, k, i) then i else FirstBelow(s, info, k, i + 1)
  }

  lemma {:induction false} FirstBelowIs<K>(s: Shape<K>, info: seq<nat>, k: K, i: nat, ins: nat)
    requires |info| >= s.n && InsertionPoint(s, info, k, ins) && Home(s, k) <= i <= ins
    ensures FirstBelow(s, info, k, i) == ins
    decreases ins - i
  {
    if i < ins {
      FirstBelowIs(s, info, k, i + 1, ins);
    }
  }

  ghost function FirstEmpty(info: seq<nat>, i: nat): (e: nat)
    ensures i <= e
    decreases |info| - i
  {
    if i >= |info| || info[i] == 0 then i else FirstEmpty(info, i + 1)
  }

  lemma {:induction false} FirstEmptyIs(info: seq<nat>, i: nat, e: nat)
    requires i <= e < |info| && info[e] == 0 && forall j :: i <= j < e ==> info[j] != 0
    ensures FirstEmpty(info, i) == e
    decreases e - i
  {
    if i < e {
      FirstEmptyIs(info, i + 1, e);
    }
  }

  /** The run from `ins` up to `e` moved up by one slot and one unit, and a new byte at `ins`. */
  ghost function ShiftedInfo(info: seq<nat>, ins: nat, e: nat, byte: nat, inc: nat): (r: seq<nat>)
    ensures |r| == |info|
  {
    seq(|info|, j requires 0 <= j < |info| => if j == ins then byte else if ins < j <= e then info[j - 1] + inc else info[j])
  }

  ghost function ShiftedNodes<K, V>(nodes: seq<Node<K, V>>, ins: nat, e: nat, node: Node<K, V>): (r: seq<Node<K, V>>)
    ensures |r| == |nodes|
  {
    seq(|nodes|, j requires 0 <= j < |nodes| => if j == ins then node else if ins < j <= e then nodes[j - 1] else nodes[j])
  }

  /** Some info byte leaves no room for one more unit. */
  ghost predicate Tight(info: seq<nat>, n: nat, inc: nat) {
    exists j :: 0 <= j < n && j < |info| && info[j] + inc > 0xFF
  }

  /** The slot a new entry goes to. */
  ghost function SlotFor<K, V>(r: Rules<K>, v: Image<K, V>, key: K): nat {
    FirstBelow(ShapeOf(r, v), v.info, key, Home(ShapeOf(r, v), key))
  }

  /** There is a node in the slot `key` goes to: it moves up, and the one it leaves behind is assigned to. */
  ghost predicate Displaces<K, V>(r: Rules<K>, v: Image<K, V>, key: K) {
    SlotFor(r, v, key) < |v.nodes| && v.nodes[SlotFor(r, v, key)].Node?
  }

  /** The table with a new entry. */
  ghost function PlacedIn<K, V>(r: Rules<K>, v: Image<K, V>, node: Node<K, V>): Image<K, V>
    requires node.Node?
  {
    var s := ShapeOf(r, v);
    var ins := SlotFor(r, v, node.key);
    var e := FirstEmpty(v.info, ins);
    var info := ShiftedInfo(v.info, ins, e, Probe(s, node.key, ins), v.inc);
    v.(info := info, nodes := ShiftedNodes(v.nodes, ins, e, node), num := v.num + 1,
       max := if Tight(info, |v.nodes|, v.inc) then 0 else v.max)
  }

  lemma ShiftedIs<K, V>(info: seq<nat>, info': seq<nat>, nodes: seq<Node<K, V>>, nodes': seq<Node<K, V>>, ins: nat, e: nat, inc: nat)
    requires ins <= e < |nodes| == |nodes'| && |nodes| < |info| == |info'|
    requires forall j :: 0 <= j < |nodes| && (j < ins || j > e) ==> nodes'[j] == nodes[j]
    requires forall j :: 0 <= j < |info| && (j < ins || j > e) ==> info'[j] == info[j]
    requires forall j :: ins < j <= e ==> nodes'[j] == nodes[j - 1]
    requires forall j :: ins < j <= e ==> info'[j] == info[j - 1] + inc
    ensures info' == ShiftedInfo(info, ins, e, info'[ins], inc) && nodes' == ShiftedNodes(nodes, ins, e, nodes'[ins])
  {
  }

  lemma ShiftedIsUp<K, V>(s: Shape<K>, info: seq<nat>, nodes: seq<Node<K, V>>, ins: nat, e: nat, byte: nat, node: Node<K, V>)
    requires ins <= e < s.n == |nodes| && s.n <= |info|
    ensures ShiftedUp(s, info, nodes, ins, e, byte, node, ShiftedInfo(info, ins, e, byte, s.inc), ShiftedNodes(nodes, ins, e, node))
  {
  }

  lemma ShiftedUpdate<K, V>(nodes: seq<Node<K, V>>, ins: nat, e: nat, was: Node<K, V>, node: Node<K, V>)
    requires ins < |nodes|
    ensures ShiftedNodes(nodes, ins, e, was)[ins := node] == ShiftedNodes(nodes, ins, e, node)
  {
  }

  /** The new entry in terms of its insertion point and the next empty slot. */
  lemma SpotPlaced<K, V>(r: Rules<K>, v: Image<K, V>, ins: nat, e: nat, node: Node<K, V>)
    requires node.Node? && ins <= e < |v.nodes| < |v.info| && InsertionPoint(ShapeOf(r, v), v.info, node.key, ins)
    requires v.info[e] == 0 && forall j :: ins <= j < e ==> v.info[j] != 0
    ensures Home(ShapeOf(r, v), node.key) <= ins == SlotFor(r, v, node.key)
    ensures var info := ShiftedInfo(v.info, ins, e, Probe(ShapeOf(r, v), node.key, ins), v.inc);
            PlacedIn(r, v, node) ==
            v.(info := info, nodes := ShiftedNodes(v.nodes, ins, e, node), num := v.num + 1,
               max := if Tight(info, |v.nodes|, v.inc) then 0 else v.max)
  {
    hide ShiftedInfo, ShiftedNodes, Tight, Home, Probe;
    var s := ShapeOf(r, v);
    FirstBelowIs(s, v.info, node.key, Home(s, node.key), ins);
    FirstEmptyIs(v.info, ins, e);
  }

  lemma RoomyNotTight<K>(s: Shape<K>, info: seq<nat>)
    requires |info| >= s.n
    ensures Roomy(s, info) <==> !Tight(info, s.n, s.inc)
  {
  }

  /** The table with half the unit. */
  ghost function Halved<K, V>(r: Rules<K>, v: Image<K, V>): Image<K, V> {
    v.(info := HalvedInfo(v.info, |v.nodes|), max := Allowance(r, v.mask + 1), inc := v.inc / 2, shift := v.shift + 1)
  }

  ghost function HalvedInfo(info: seq<nat>, n: nat): (r: seq<nat>)
    ensures |r| == |info|
  {
    seq(|info|, j requires 0 <= j < |info| => if j < n then info[j] / 2 else if j == n then 1 else 0)
  }

  // ---------------------------------------------------------------- rehashing

  ghost function Buffer<K>(r: Rules<K>, n: nat): nat {
    n + if Allowance(r, n) < 0xFF then Allowance(r, n) else 0xFF
  }

  /** An empty table with `n` home slots. */
  ghost function Fresh<K, V>(r: Rules<K>, n: nat, mult: nat): Image<K, V>
    requires n > 0
  {
    var len := Buffer(r, n);
    Image(seq(len + 8, j => if j == len then 1 else 0), seq(len, _ => Vacant), 0, n - 1, Allowance(r, n), INITIAL_INFO_INC, 0, mult)
  }

  /** The table with an entry moved in from the old arrays. */
  ghost function MovedIn<K, V>(r: Rules<K>, v: Image<K, V>, node: Node<K, V>): Image<K, V>
    requires node.Node?
  {
    PlacedIn(r, if v.max == 0 then Halved(r, v) else v, node)
  }

  /** The table `v` with the entries of the first `i` slots moved in. */
  ghost function MovedUp<K, V>(r: Rules<K>, v: Image<K, V>, nodes: seq<Node<K, V>>, i: nat): Image<K, V>
    requires i <= |nodes|
  {
    if i == 0 then v
    else
      var w := MovedUp(r, v, nodes, i - 1);
      if nodes[i - 1].Node? then MovedIn(r, w, nodes[i - 1]) else w
  }

  ghost function Rehashed<K, V>(r: Rules<K>, nodes: seq<Node<K, V>>, n: nat, mult: nat): Image<K, V>
    requires n > 0
  {
    MovedUp(r, Fresh(r, n, mult), nodes, |nodes|)
  }

  /** With the entries before slot `i` moved there is a crowded window, and another entry to move at `i`. */
  ghost predicate CrowdedBefore<K, V>(s: Shape<K>, nodes: seq<Node<K, V>>, i: nat) {
    i < |nodes| && nodes[i].Node? && Crowded(s, KeysIn(nodes, 0, i))
  }

  ghost predicate SomeCrowdedBefore<K, V>(s: Shape<K>, nodes: seq<Node<K, V>>) {
    exists i: nat :: CrowdedBefore(s, nodes, i)
  }

  /** Moving the entries to `n` home slots fails. */
  ghost predicate RehashFails<K, V>(r: Rules<K>, nodes: seq<Node<K, V>>, n: nat, mult: nat)
    requires n > 0
  {
    SomeCrowdedBefore(Place(r, n - 1, mult), nodes)
  }

  // ---------------------------------------------------------------- growing

  function NextMultiplier(mult: nat): nat {
    (mult + 0xc4ce_b9fe_1a85_ec54) % 0x1_0000_0000_0000_0000
  }

  /** An odd multiplier loses nothing of what it multiplies. */
  predicate Odd(mult: nat) {
    mult % 2 == 1
  }

  lemma MultiplierMoves(mult: nat)
    ensures Odd(NextMultiplier(mult)) == Odd(mult) && NextMultiplier(mult) != mult
  {
  }

  /** The table is not full, and has a hash bit to give up. */
  predicate HasSpareBit<K, V>(r: Rules<K>, v: Image<K, V>) {
    v.mask > 0 && v.num < Allowance(r, v.mask + 1) && v.inc > 2
  }

  /** Nearly empty: rehash at the same size. */
  predicate Sparse<K, V>(r: Rules<K>, v: Image<K, V>) {
    v.num * 2 < Allowance(r, v.mask + 1)
  }

  /** How many home slots, and which multiplier, a rehash uses. */
  function NewSize<K, V>(r: Rules<K>, v: Image<K, V>): (n: nat)
    ensures n > 0
  {
    if Sparse(r, v) then v.mask + 1 else (v.mask + 1) * 2
  }

  function NewMult<K, V>(r: Rules<K>, v: Image<K, V>): nat {
    if Sparse(r, v) then NextMultiplier(v.mult) else v.mult
  }

  /** The table after making room once. */
  ghost function Grown<K, V>(r: Rules<K>, v: Image<K, V>): Image<K, V> {
    if v.mask == 0 then Fresh(r, INITIAL_NUM_ELEMENTS, v.mult)
    else if HasSpareBit(r, v) then Halved(r, v)
    else Rehashed(r, v.nodes, NewSize(r, v), NewMult(r, v))
  }

  ghost predicate GrowFails<K, V>(r: Rules<K>, v: Image<K, V>) {
    v.mask > 0 && !HasSpareBit(r, v) && RehashFails(r, v.nodes, NewSize(r, v), NewMult(r, v))
  }

  predicate Full<K, V>(v: Image<K, V>) {
    v.num >= v.max
  }

  /** How making room for a new entry goes: it grows to this table, or a rehash throws, or it gives up. */
  datatype Growth<K, V> = Room(image: Image<K, V>) | Throws | GivesUp

  ghost function Outcome<K, V>(r: Rules<K>, v: Image<K, V>, attempts: nat): Growth<K, V>
    decreases attempts
  {
    if attempts == 0 then GivesUp
    else if !Full(v) then Room(v)
    else if GrowFails(r, v) then Throws
    else Outcome(r, Grown(r, v), attempts - 1)
  }

  // ---------------------------------------------------------------- sound tables

  /** The table holds just the entries of `m`, laid out as they should be. */
  ghost predicate Sound<K, V>(r: Rules<K>, v: Image<K, V>, m: map<K, V>) {
    && 10 < r.loadFactor100 < 100 && PowerOfTwo(v.mask + 1) && v.num == |m.Keys|
    && if v.mask == 0 then m == map[] && v.nodes == [] && v.max == 0
       else
         && v.mask + 1 >= INITIAL_NUM_ELEMENTS && Layout(ShapeOf(r, v), v.info, v.nodes) && Represents(v.nodes, m)
         && v.num <= Allowance(r, v.mask + 1) && (v.max == 0 || v.max == Allowance(r, v.mask + 1))
         && (v.max > 0 ==> !Tight(v.info, |v.nodes|, v.inc))
  }

  /** If insertions are stopped, there is a reason. */
  ghost predicate Settled<K, V>(r: Rules<K>, v: Image<K, V>) {
    v.max == Allowance(r, v.mask + 1) || Tight(v.info, |v.nodes|, v.inc)
  }

  /** All tables on the way to room for a new entry are sound. */
  ghost predicate SoundGrowth<K, V>(r: Rules<K>, v: Image<K, V>, m: map<K, V>, attempts: nat)
    decreases attempts
  {
    Sound(r, v, m)
    && (attempts > 0 && Full(v) && !GrowFails(r, v) ==>
          Settled(r, Grown(r, v)) && SoundGrowth(r, Grown(r, v), m, attempts - 1))
  }

  lemma GrownOnce<K, V>(r: Rules<K>, v: Image<K, V>, m: map<K, V>, attempts: nat)
    requires attempts > 0 && Full(v) && !GrowFails(r, v) && Sound(r, v, m) && Settled(r, Grown(r, v))
    ensures Outcome(r, v, attempts) == Outcome(r, Grown(r, v), attempts - 1)
    ensures SoundGrowth(r, Grown(r, v), m, attempts - 1) ==> SoundGrowth(r, v, m, attempts)
  {
  }

  lemma GrowthEnds<K, V>(r: Rules<K>, v: Image<K, V>, m: map<K, V>, attempts: nat)
    requires Sound(r, v, m)
    ensures attempts == 0 ==> Outcome(r, v, attempts).GivesUp?
    ensures attempts > 0 && !Full(v) ==> Outcome(r, v, attempts) == Room(v)
    ensures attempts > 0 && Full(v) && GrowFails(r, v) ==> Outcome(r, v, attempts).Throws?
    ensures attempts == 0 || !Full(v) || GrowFails(r, v) ==> SoundGrowth(r, v, m, attempts)
  {
  }

  lemma {:induction false} MovedUpPlace<K, V>(r: Rules<K>, v: Image<K, V>, nodes: seq<Node<K, V>>, i: nat)
    requires i <= |nodes|
    ensures MovedUp(r, v, nodes, i).mask == v.mask && MovedUp(r, v, nodes, i).mult == v.mult
  {
    hide ShiftedInfo, ShiftedNodes, FirstBelow, FirstEmpty, Tight, HalvedInfo, Probe, Home;
    if i > 0 {
      MovedUpPlace(r, v, nodes, i - 1);
    }
  }

  lemma RehashedPlace<K, V>(r: Rules<K>, nodes: seq<Node<K, V>>, n: nat, mult: nat)
    requires n > 0
    ensures Rehashed(r, nodes, n, mult).mask == n - 1 && Rehashed(r, nodes, n, mult).mult == mult
  {
    MovedUpPlace(r, Fresh(r, n, mult), nodes, |nodes|);
  }

  /** Twice the home slots allow at least twice the entries, and sixteen of them at least one. */
  lemma AllowanceDoubles<K>(r: Rules<K>, n: nat)
    ensures Allowance(r, n * 2) >= 2 * Allowance(r, n)
    ensures n >= 8 && r.loadFactor100 > 10 ==> Allowance(r, n * 2) >= 1
  {
    TimesIsProduct(n, r.loadFactor100);
    TimesIsProduct(n * 2, r.loadFactor100);
    assert n * 2 * r.loadFactor100 == 2 * (n * r.loadFactor100);
    if n >= 8 && r.loadFactor100 > 10 {
      MulMonotone(11, r.loadFactor100, n);
    }
  }

  /** A sound table that is full for a reason has a hash bit to spare, unless its home slots are crowded. */
  lemma SpareUnlessCrowded<K, V>(r: Rules<K>, v: Image<K, V>, m: map<K, V>)
    requires Sound(r, v, m) && Settled(r, v) && v.mask > 0 && Full(v) && v.num < Allowance(r, v.mask + 1)
    ensures HasSpareBit(r, v) || Crowded(ShapeOf(r, v), m.Keys)
  {
    hide Layout, Represents, Crowded, Far;
    if v.inc <= 2 {
      var j :| 0 <= j < |v.nodes| && j < |v.info| && v.info[j] + v.inc > 0xFF;
      FarExactly(ShapeOf(r, v), v.info, v.nodes, j);
      FarMeansCrowded(ShapeOf(r, v), v.info, v.nodes, m, j);
    }
  }

  /** A failing rehash means that the home slots of all entries but one are crowded. */
  lemma FailingIsCrowded<K, V>(r: Rules<K>, v: Image<K, V>, m: map<K, V>, n: nat, mult: nat)
    requires n > 0 && Represents(v.nodes, m) && RehashFails(r, v.nodes, n, mult)
    ensures Crowded(Place(r, n - 1, mult), m.Keys) && |m.Keys| >= 127
  {
    var i: nat :| CrowdedBefore(Place(r, n - 1, mult), v.nodes, i);
    assert KeysIn(v.nodes, 0, i) <= m.Keys;
    CrowdedMonotone(Place(r, n - 1, mult), Place(r, n - 1, mult), KeysIn(v.nodes, 0, i), m.Keys);
    CrowdedNeedsMany(Place(r, n - 1, mult), m.Keys);
  }

  /** A rehash makes the table larger than its entries need. */
  lemma NewSizeAllows<K, V>(r: Rules<K>, v: Image<K, V>)
    requires r.loadFactor100 > 10 && v.mask + 1 >= INITIAL_NUM_ELEMENTS && v.num <= Allowance(r, v.mask + 1)
    ensures v.num < Allowance(r, NewSize(r, v))
  {
    AllowanceDoubles(r, v.mask + 1);
  }

  /** How many times a table with few entries has to grow at most. */
  function StepsLeft<K, V>(r: Rules<K>, v: Image<K, V>): nat {
    if !Full(v) then 0 else if v.mask == 0 then 3 else if HasSpareBit(r, v) then 1 else 2
  }

  lemma FewerSteps<K, V>(r: Rules<K>, v: Image<K, V>, m: map<K, V>)
    requires Sound(r, v, m) && Full(v) && Sound(r, Grown(r, v), m) && Settled(r, Grown(r, v)) && |m.Keys| <= 126
    ensures StepsLeft(r, Grown(r, v)) < StepsLeft(r, v)
  {
    hide Layout, Represents, Crowded, Tight, Rehashed, HalvedInfo;
    if v.mask > 0 && !HasSpareBit(r, v) {
      NewSizeAllows(r, v);
      RehashedPlace(r, v.nodes, NewSize(r, v), NewMult(r, v));
      if Full(Grown(r, v)) {
        SpareUnlessCrowded(r, Grown(r, v), m);
        if Crowded(ShapeOf(r, Grown(r, v)), m.Keys) {
          CrowdedNeedsMany(ShapeOf(r, Grown(r, v)), m.Keys);
        }
      }
    }
  }

  /** With up to 126 entries there is always room after a few steps. */
  lemma {:induction false} FewGetRoom<K, V>(r: Rules<K>, v: Image<K, V>, m: map<K, V>, attempts: nat)
    requires SoundGrowth(r, v, m, attempts) && |m.Keys| <= 126 && attempts > StepsLeft(r, v)
    ensures Outcome(r, v, attempts).Room?
    decreases attempts
  {
    hide StepsLeft, Layout, Rehashed, RehashFails, Halved, Fresh, Settled;
    if Full(v) {
      if GrowFails(r, v) {
        FailingIsCrowded(r, v, m, NewSize(r, v), NewMult(r, v));
      }
      assert SoundGrowth(r, Grown(r, v), m, attempts - 1);
      FewerSteps(r, v, m);
      FewGetRoom(r, Grown(r, v), m, attempts - 1);
    }
  }

  /** The table grown to is sound and has room. */
  lemma {:induction false} RoomIsSound<K, V>(r: Rules<K>, v: Image<K, V>, m: map<K, V>, attempts: nat)
    requires SoundGrowth(r, v, m, attempts) && Outcome(r, v, attempts).Room?
    ensures Sound(r, Outcome(r, v, attempts).image, m) && !Full(Outcome(r, v, attempts).image)
    decreases attempts
  {
    hide Sound, Grown, GrowFails, Settled;
    if Full(v) {
      RoomIsSound(r, Grown(r, v), m, attempts - 1);
    }
  }

  /** A hash bit given up is room. */
  lemma SpareIsRoom<K, V>(r: Rules<K>, v: Image<K, V>, attempts: nat)
    requires HasSpareBit(r, v) && attempts > 1
    ensures Outcome(r, v, attempts) == Room(if Full(v) then Halved(r, v) else v)
  {
    hide RehashFails, Rehashed, HalvedInfo;
    assert Outcome(r, Halved(r, v), attempts - 1) == Room(Halved(r, v));
  }

  /** A new entry stops insertions only for a reason. */
  lemma PlacedSettles<K, V>(r: Rules<K>, v: Image<K, V>, m: map<K, V>, node: Node<K, V>)
    requires Sound(r, v, m) && !Full(v) && node.Node?
    ensures Settled(r, PlacedIn(r, v, node)) && PlacedIn(r, v, node).mask == v.mask
  {
    hide Layout, Represents, ShiftedInfo, FirstBelow, FirstEmpty, Probe, Home, Tight;
  }

  /** All entries but the one in the last occupied slot. */
  lemma LastSlot<K, V>(nodes: seq<Node<K, V>>, m: map<K, V>) returns (i: nat)
    requires Distinct(nodes) && Represents(nodes, m) && m != map[]
    ensures i < |nodes| && nodes[i].Node? && KeysIn(nodes, 0, i) == m.Keys - {nodes[i].key}
  {
    var k :| k in m;
    var j :| 0 <= j < |nodes| && nodes[j].Node? && nodes[j].key == k;
    i := |nodes| - 1;
    while nodes[i].Vacant?
      invariant j <= i < |nodes| && forall x :: i < x < |nodes| ==> nodes[x].Vacant?
      decreases i
    {
      i := i - 1;
    }
    forall x | x in m.Keys - {nodes[i].key} ensures x in KeysIn(nodes, 0, i) {
      var y :| 0 <= y < |nodes| && nodes[y].Node? && nodes[y].key == x;
    }
  }
}
