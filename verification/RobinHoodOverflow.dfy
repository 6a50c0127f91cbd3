/** Tables whose growth fails: one in which a rehash throws, and one that gives up. */
module RobinHoodOverflow {
  import opened Bits
  import opened RobinHoodLayout
  import opened RobinHoodGrowth
  import opened RobinHood

  const ENTRIES: nat := 130

  // ---------------------------------------------------------------- a rehash throws

  /** Even keys belong to home slot 255, odd ones to 256; with up to 256 home slots, to the last and the first. */
  function TwoHomes(mult: nat, k: nat): nat {
    if k % 2 == 0 then 255 * 32 else 256 * 32
  }

  function SplitRules(): Rules<nat> {
    Rules(TwoHomes, 51)
  }

  ghost predicate SmallKeys(keys: set<nat>) {
    forall k :: k in keys ==> k < ENTRIES
  }

  /** With `n` up to 256, the remainders of 255 and 256. */
  lemma Remainders(n: nat)
    requires PowerOfTwo(n) && n <= 256
    ensures 255 % n == n - 1 && 256 % n == 0 && (n > 128 ==> n == 256)
  {
    var j: nat :| n == Pow2(j);
    assert Pow2(8) == 256 by {
      assert Pow2(4) == 16 && Pow2(8) == 16 * Pow2(4);
    }
    if j > 8 {
      Pow2Monotone(8, j);
    }
    Pow2Add(j, 8 - j);
    var q := Pow2(8 - j);
    ModUnique(256, n, q, 0);
    assert 255 == (q - 1) * n + (n - 1);
    ModUnique(255, n, q - 1, n - 1);
    assert n > 128 ==> q == 1;
  }

  lemma SplitHome(mask: nat, mult: nat, k: nat)
    requires PowerOfTwo(mask + 1)
    ensures mask + 1 <= 256 ==> Home(Place(SplitRules(), mask, mult), k) == if k % 2 == 0 then mask else 0
    ensures mask == 511 ==> Home(Place(SplitRules(), mask, mult), k) == if k % 2 == 0 then 255 else 256
  {
    hide BitAnd, PowerOfTwo;
    var h := TwoHomes(mult, k);
    KeyBits(h, mask);
    assert h / 32 == if k % 2 == 0 then 255 else 256;
    HomeIs(mask, mult, k);
    if mask + 1 <= 256 {
      Remainders(mask + 1);
    }
  }

  lemma HomeIs(mask: nat, mult: nat, k: nat)
    ensures Home(Place(SplitRules(), mask, mult), k) == BitAnd(TwoHomes(mult, k) / 32, mask)
  {
  }

  ghost function OfParity(n: nat, parity: nat): set<nat> {
    set k | 0 <= k < n && k % 2 == parity
  }

  lemma {:induction false} ParityCount(n: nat, parity: nat)
    requires parity < 2
    ensures |OfParity(2 * n, parity)| == n
  {
    if n == 0 {
      assert OfParity(0, parity) == {};
    } else {
      ParityCount(n - 1, parity);
      assert OfParity(2 * n, parity) == OfParity(2 * (n - 1), parity) + {2 * (n - 1) + parity};
    }
  }

  /** Up to 256 home slots, 130 keys crowd no window. */
  lemma NotCrowded(s: Shape<nat>, keys: set<nat>)
    requires s.hasher == TwoHomes && PowerOfTwo(s.mask + 1) && INITIAL_NUM_ELEMENTS <= s.mask + 1 <= 256 && SmallKeys(keys)
    ensures !Crowded(s, keys)
  {
    hide Home;
    if Crowded(s, keys) {
      var a: nat, b: nat :| a <= b && |HomedIn(s, keys, a, b)| >= b - a + 127;
      forall k ensures Home(s, k) == if k % 2 == 0 then s.mask else 0 {
        SplitHome(s.mask, s.mult, k);
        HomeOfPlace(s, k);
      }
      ParityCount(65, 0);
      ParityCount(65, 1);
      var even, odd := OfParity(ENTRIES, 0), OfParity(ENTRIES, 1);
      if a > 0 {
        SubsetCount(HomedIn(s, keys, a, b), even);
      } else if b < s.mask {
        SubsetCount(HomedIn(s, keys, a, b), odd);
      } else {
        SubsetCount(HomedIn(s, keys, a, b), even + odd);
      }
      assert false;
    }
  }

  lemma HomeOfPlace(s: Shape<nat>, k: nat)
    requires s.hasher == TwoHomes
    ensures Home(s, k) == Home(Place(SplitRules(), s.mask, s.mult), k)
  {
  }

  lemma SplitAllowance(n: nat)
    ensures Allowance(SplitRules(), n) == n * 51 / 100
  {
    TimesIsProduct(n, 51);
  }

  /** A table with fewer than 130 such entries grows to no more than 256 home slots. */
  lemma GrowsTamely(v: Image<nat, nat>, m: map<nat, nat>, attempts: nat)
    requires SoundGrowth(SplitRules(), v, m, attempts) && Settled(SplitRules(), v) && attempts > 2
    requires v.mask <= 255 && SmallKeys(m.Keys) && |m.Keys| < ENTRIES
    ensures Outcome(SplitRules(), v, attempts).Room? && Outcome(SplitRules(), v, attempts).image.mask <= 255
  {
    hide Layout, Represents, Crowded, Rehashed, RehashFails, HalvedInfo, Tight;
    var r := SplitRules();
    if Full(v) {
      if v.mask == 0 {
        SplitAllowance(8);
      } else if HasSpareBit(r, v) {
        SpareIsRoom(r, v, attempts);
      } else {
        Doubles(v, m);
        var w := Grown(r, v);
        assert SoundGrowth(r, w, m, attempts - 1);
        if Full(w) {
          SpareUnlessCrowded(r, w, m);
          NotCrowded(ShapeOf(r, w), m.Keys);
          SpareIsRoom(r, w, attempts - 1);
        }
      }
    }
  }

  /** It is doubled only when it is full, and then there is no failure. */
  lemma Doubles(v: Image<nat, nat>, m: map<nat, nat>)
    requires Sound(SplitRules(), v, m) && Settled(SplitRules(), v) && v.mask <= 255 && SmallKeys(m.Keys) && |m.Keys| < ENTRIES
    requires Full(v) && v.mask > 0 && !HasSpareBit(SplitRules(), v)
    ensures var w := Grown(SplitRules(), v);
            !GrowFails(SplitRules(), v) && w.mask == 2 * v.mask + 1 <= 255 && v.num < Allowance(SplitRules(), w.mask + 1)
            && w.mult == v.mult
  {
    hide Layout, Represents, Crowded, Rehashed, RehashFails, Tight;
    var r := SplitRules();
    if v.num < Allowance(r, v.mask + 1) {
      SpareUnlessCrowded(r, v, m);
      NotCrowded(ShapeOf(r, v), m.Keys);
    }
    SplitAllowance(v.mask + 1);
    Remainders(v.mask + 1);
    RehashedPlace(r, v.nodes, NewSize(r, v), NewMult(r, v));
    NewSizeAllows(r, v);
    DoublePower(v.mask + 1);
    if RehashFails(r, v.nodes, NewSize(r, v), NewMult(r, v)) {
      FailingIsCrowded(r, v, m, NewSize(r, v), NewMult(r, v));
      assert false;
    }
  }

  /** With 130 entries the table is full at 256 home slots; at 512 the two homes are neighbours, and crowded. */
  lemma FailsAtLast(v: Image<nat, nat>, m: map<nat, nat>)
    requires Sound(SplitRules(), v, m) && v.mask <= 255 && |m.Keys| == ENTRIES
    ensures Full(v) && GrowFails(SplitRules(), v)
  {
    hide Layout, Represents, Crowded;
    var r := SplitRules();
    SplitAllowance(v.mask + 1);
    Remainders(v.mask + 1);
    assert v.mask == 255;
    assert Distinct(v.nodes) by {
      LayoutDistinct(ShapeOf(r, v), v);
    }
    var i := LastSlot(v.nodes, m);
    AllInWindow(v.mult, KeysIn(v.nodes, 0, i));
    assert CrowdedBefore(Place(r, 511, v.mult), v.nodes, i);
  }

  lemma LayoutDistinct(s: Shape<nat>, v: Image<nat, nat>)
    requires Layout(s, v.info, v.nodes)
    ensures Distinct(v.nodes)
  {
  }

  lemma AllInWindow(mult: nat, keys: set<nat>)
    requires |keys| >= 128
    ensures Crowded(Place(SplitRules(), 511, mult), keys)
  {
    hide Home;
    var s := Place(SplitRules(), 511, mult);
    assert Pow2(9) == 512 by {
      assert Pow2(5) == 32 && Pow2(9) == 16 * Pow2(5);
    }
    forall k ensures 255 <= Home(s, k) <= 256 {
      SplitHome(511, mult, k);
    }
    assert HomedIn(s, keys, 255, 256) == keys;
  }

  method InsertTamely(t: Table<nat, nat>, k: nat)
    requires t.Valid() && t.TheRules() == SplitRules() && Settled(SplitRules(), t.Now()) && t.mask <= 255
    requires k < ENTRIES && k !in t.model && SmallKeys(t.model.Keys) && |t.model.Keys| < ENTRIES
    modifies t, t.info, t.keyVals
    ensures t.Valid() && Settled(SplitRules(), t.Now()) && t.mask <= 255 && t.model == old(t.model)[k := 0]
    ensures (t.info == old(t.info) || fresh(t.info)) && (t.keyVals == old(t.keyVals) || fresh(t.keyVals))
  {
    hide Table.Valid, SoundGrowth, PlacedIn, Outcome, Settled, Table.Justified, LostSome;
    ghost var v, m := t.Now(), t.model;
    var inserted, state := t.InsertOrAssign(k, 0);
    GrowsTamely(v, m, MAX_ATTEMPTS);
    RoomIsSound(SplitRules(), v, m, MAX_ATTEMPTS);
    PlacedSettles(SplitRules(), Outcome(SplitRules(), v, MAX_ATTEMPTS).image, m, Node(k, 0));
  }

  /** 130 keys go in; with the next one the table doubles, and the rehash throws. */
  method RehashThrows() returns (t: Table<nat, nat>, state: InsertionState)
    ensures fresh(t) && state == RehashThrew && t.Valid() && |t.model.Keys| < ENTRIES
  {
    hide Table.Valid, SoundGrowth, PlacedIn, Outcome, Settled, Table.Justified, GrowFails, Sound;
    t := new Table<nat, nat>(TwoHomes, 51);
    NewIsSettled(t);
    var k := 0;
    while k < ENTRIES
      invariant 0 <= k <= ENTRIES && fresh(t) && fresh(t.info) && fresh(t.keyVals)
      invariant t.Valid() && t.TheRules() == SplitRules() && Settled(SplitRules(), t.Now()) && t.mask <= 255
      invariant forall i: nat :: i in t.model <==> i < k
      invariant |t.model.Keys| == k
    {
      InsertTamely(t, k);
      k := k + 1;
    }
    t.ValidIsSound();
    FailsAtLast(t.Now(), t.model);
    GrowthEnds(SplitRules(), t.Now(), t.model, MAX_ATTEMPTS);
    var inserted;
    inserted, state := t.InsertOrAssign(k, 0);
  }

  lemma NewIsSettled(t: Table<nat, nat>)
    requires t.Valid() && t.mask == 0 && t.loadFactor100 == 51
    ensures Settled(t.TheRules(), t.Now())
  {
    TimesIsProduct(1, 51);
  }

  // ---------------------------------------------------------------- growing gives up

  /** Every key belongs to the first home slot. */
  function OneHome(mult: nat, k: nat): nat {
    0
  }

  /** Whatever the unit, no more than 127 such entries can be told by their distance. */
  lemma OneHomeHolds127(s: Shape<nat>, info: seq<nat>, nodes: seq<Node<nat, nat>>, m: map<nat, nat>)
    requires Layout(s, info, nodes) && Represents(nodes, m) && s.hasher == OneHome
    ensures |m.Keys| <= 127
  {
    if |m.Keys| > 127 {
      var end := if 127 < s.n then 127 else s.n;
      KeysInAtMost(nodes, 0, end);
      if m.Keys <= KeysIn(nodes, 0, end) {
        SubsetCount(m.Keys, KeysIn(nodes, 0, end));
        assert false;
      }
      var k :| k in m.Keys && k !in KeysIn(nodes, 0, end);
      var p :| 0 <= p < |nodes| && nodes[p].Node? && nodes[p].key == k;
      assert EntryOk(s, info[p], nodes[p], p);
      AtHomeNought(s, k);
      HomeOrAway(s, k, p);
      assert false;
    }
  }

  lemma AtHomeNought(s: Shape<nat>, k: nat)
    requires s.hasher == OneHome
    ensures Home(s, k) == 0
  {
  }

  /** 127 keys go in; for the next one the table grows 256 times to no avail. */
  method GivesUp() returns (t: Table<nat, nat>, state: InsertionState)
    ensures fresh(t) && state == OverflowError && t.Valid() && |t.model.Keys| == 127
  {
    hide Table.Valid, SoundGrowth, PlacedIn, Outcome, LostSome, Layout;
    t := new Table<nat, nat>(OneHome, 51);
    var k := 0;
    while k < 127
      invariant 0 <= k <= 127 && fresh(t) && fresh(t.info) && fresh(t.keyVals)
      invariant t.Valid() && t.hasher == OneHome
      invariant forall i: nat :: i in t.model <==> i < k
      invariant |t.model.Keys| == k
    {
      var inserted;
      inserted, state := t.InsertOrAssign(k, 0);
      k := k + 1;
    }
    var inserted;
    inserted, state := t.InsertOrAssign(k, 0);
    if inserted {
      HoldsAtMost127(t);
      assert false;
    }
  }

  lemma HoldsAtMost127(t: Table<nat, nat>)
    requires t.Valid() && t.hasher == OneHome
    ensures |t.model.Keys| <= 127
  {
    if t.mask > 0 {
      OneHomeHolds127(t.ShapeNow(), t.info[..], t.keyVals[..], t.model);
    }
  }
}
