/** Eight info bytes at a time: halving every byte of a 64-bit word with one shift and one mask. */
module RobinHoodWords {
  import opened Bits

  /** The word whose little-endian bytes are `b`. */
  function LoadWord(b: seq<nat>): nat {
    if b == [] then 0 else b[0] + 256 * LoadWord(b[1..])
  }

  function StoreWord(v: nat, count: nat): (b: seq<nat>)
    ensures |b| == count
  {
    if count == 0 then [] else [v % 256] + StoreWord(v / 256, count - 1)
  }

  const LANE_MASK: nat := 0x7f7f_7f7f_7f7f_7f7f

  /** `count` lanes of 0x7f. */
  function Lanes(count: nat): nat {
    if count == 0 then 0 else 127 + 256 * Lanes(count - 1)
  }

  lemma LaneMaskIsEightLanes()
    ensures LANE_MASK == Lanes(8)
  {
    assert Lanes(4) == 0x7f7f_7f7f;
    assert Lanes(6) == 0x7f7f_7f7f_7f7f;
  }

  lemma AndTwoOnes(v: nat, m: nat)
    ensures BitAnd(v, 3 + 4 * m) == v % 4 + 4 * BitAnd(v / 4, m)
  {
    hide BitAnd;
    AndOdd(v, 1 + 2 * m);
    AndOdd(v / 2, m);
    assert v / 2 / 2 == v / 4;
  }

  lemma AndFourOnes(v: nat, m: nat)
    ensures BitAnd(v, 15 + 16 * m) == v % 16 + 16 * BitAnd(v / 16, m)
  {
    hide BitAnd;
    AndTwoOnes(v, 3 + 4 * m);
    AndTwoOnes(v / 4, m);
    assert v / 4 / 4 == v / 16;
  }

  lemma AndEven(x: nat, m: nat)
    ensures BitAnd(x, 2 * m) == 2 * BitAnd(x / 2, m)
  {
    assert (2 * m) / 2 == m && (2 * m) % 2 == 0;
  }

  /** Masking one 0x7f lane off a word. */
  lemma AndLane(v: nat, m: nat)
    ensures BitAnd(v, 127 + 256 * m) == v % 128 + 256 * BitAnd(v / 256, m)
  {
    hide BitAnd;
    AndFourOnes(v, 7 + 16 * m);
    AndTwoOnes(v / 16, 1 + 4 * m);
    AndOdd(v / 64, 2 * m);
    AndEven(v / 128, m);
    assert v / 16 / 4 == v / 64 && v / 64 / 2 == v / 128 && v / 128 / 2 == v / 256;
  }

  /** The lowest byte of a halved and masked word, and the rest of it. */
  lemma HalveLowest(low: nat, rest: nat, half: nat, m: nat)
    requires low < 256 && half == (low + 256 * rest) / 2
    ensures BitAnd(half, 127 + 256 * m) % 256 == low / 2
    ensures BitAnd(half, 127 + 256 * m) / 256 == BitAnd(rest / 2, m)
  {
    hide BitAnd;
    AndLane(half, m);
    assert half == low / 2 + 128 * rest;
    assert half % 128 == low / 2 && half / 256 == rest / 2;
  }

  /** Shifting the word right by one and masking halves each byte on its own. */
  lemma {:induction false} HalveLanes(b: seq<nat>)
    requires forall i :: 0 <= i < |b| ==> b[i] < 256
    ensures forall i :: 0 <= i < |b| ==> StoreWord(BitAnd(LoadWord(b) / 2, Lanes(|b|)), |b|)[i] == b[i] / 2
  {
    if b != [] {
      var rest := b[1..];
      HalveLanes(rest);
      HalveLowest(b[0], LoadWord(rest), LoadWord(b) / 2, Lanes(|rest|));
      var masked := BitAnd(LoadWord(b) / 2, Lanes(|b|));
      assert StoreWord(masked, |b|) == [b[0] / 2] + StoreWord(BitAnd(LoadWord(rest) / 2, Lanes(|rest|)), |rest|);
    }
  }

  /** One round of the info-halving loop. */
  function HalveWord(v: nat): nat {
    BitAnd(v / 2, LANE_MASK)
  }

  lemma HalveWordHalvesBytes(b: seq<nat>)
    requires |b| == 8 && forall i :: 0 <= i < 8 ==> b[i] < 256
    ensures forall i :: 0 <= i < 8 ==> StoreWord(HalveWord(LoadWord(b)), 8)[i] == b[i] / 2
  {
    LaneMaskIsEightLanes();
    HalveLanes(b);
    var v := HalveWord(LoadWord(b));
    assert v == BitAnd(LoadWord(b) / 2, Lanes(|b|));
  }
}
