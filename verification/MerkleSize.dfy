/**
 * The serialized size of a partial Merkle tree (src/merkleblock.h), against the guarantee its documentation gives:
 * at most 10 + ceil(32.25 N) bytes for N hashes.
 */
module MerkleSize {
  import opened Merkle
  import opened Power

  /** The length of a variable-length integer below 2^32. */
  function CompactSize(n: nat): nat {
    if n < 253 then 1 else if n <= 0xFFFF then 3 else 5
  }

  /** The bytes of the flag bits. */
  function FlagBytes(bits: nat): nat { (bits + 7) / 8 }

  function SerializedSize(hashes: nat, bits: nat): nat {
    4 + CompactSize(hashes) + 32 * hashes + CompactSize(FlagBytes(bits)) + FlagBytes(bits)
  }

  /** 10 + ceil(32.25 * N) */
  function Guarantee(hashes: nat): nat { 10 + (129 * hashes + 3) / 4 }

  // ----- a single child on each level at most --------------------------------------------------------------

  /** A node with another one to its right has both children, all the way down. */
  lemma {:induction false} FullNode(mask: seq<bool>, height: nat, pos: nat)
    requires pos + 1 < Width(|mask|, height)
    ensures SingleChildren(mask, height, pos) == 0
    decreases height
  {
    hide Width, AnyMatch;
    if height > 0 && AnyMatch(mask, height, pos) {
      Children(|mask|, height, pos);
      Children(|mask|, height, pos + 1);
      FullNode(mask, height - 1, 2 * pos);
      FullNode(mask, height - 1, 2 * pos + 1);
    }
  }

  lemma {:induction false} SinglesPerLevel(mask: seq<bool>, height: nat, pos: nat)
    requires pos < Width(|mask|, height)
    ensures SingleChildren(mask, height, pos) <= height
    decreases height
  {
    hide Width, AnyMatch;
    if height > 0 && AnyMatch(mask, height, pos) {
      Children(|mask|, height, pos);
      if 2 * pos + 1 < Width(|mask|, height - 1) {
        FullNode(mask, height - 1, 2 * pos);
        SinglesPerLevel(mask, height - 1, 2 * pos + 1);
      } else {
        SinglesPerLevel(mask, height - 1, 2 * pos);
      }
    }
  }

  lemma LowTree(n: nat)
    requires 0 < n <= MAX_TRANSACTIONS
    ensures HeightFrom(n, 0) <= 15
  {
    hide Width;
    FirstLeaf(n, 15, 1);
    Pow15();
    assert Width(n, 15) <= 1;
  }

  lemma Pow15()
    ensures Pow(2, 15) == 32768
  {
    assert Pow(2, 5) == 32;
    PowAdd(2, 5, 5);
    PowAdd(2, 5, 10);
  }

  // ----- the guarantee ------------------------------------------------------------------------------------------

  /**
   * The documented guarantee holds exactly if the flag bits take fewer than 253 bytes or no more than ceil(N / 4);
   * two bytes more are always enough.
   */
  lemma SizeIff(H: Combiner, txids: seq<Digest>, mask: seq<bool>)
    requires 0 < |txids| == |mask| <= MAX_TRANSACTIONS
    ensures var n, bits := |BuildAll(H, txids, mask).hashes|, |BuildAll(H, txids, mask).bits|;
            && (SerializedSize(n, bits) <= Guarantee(n) <==> FlagBytes(bits) < 253 || FlagBytes(bits) <= (n + 3) / 4)
            && SerializedSize(n, bits) <= Guarantee(n) + 2
  {
    hide Width, Build, SingleChildren;
    var h := HeightFrom(|txids|, 0);
    OneRoot(|txids|);
    WholeTree(|txids|);
    LowTree(|txids|);
    BitCount(H, txids, mask, h, 0);
    SinglesPerLevel(mask, h, 0);
    HashesPerLeaf(H, txids, mask, h, 0);
    HashesPerMatch(H, txids, mask, h, 0);
    SizeNumbers(|BuildAll(H, txids, mask).hashes|, SingleChildren(mask, h, 0));
  }

  lemma SizeNumbers(n: nat, single: nat)
    requires 1 <= n <= MAX_TRANSACTIONS && single <= 15
    ensures var bits := 2 * n - 1 + single;
            && (SerializedSize(n, bits) <= Guarantee(n) <==> FlagBytes(bits) < 253 || FlagBytes(bits) <= (n + 3) / 4)
            && SerializedSize(n, bits) <= Guarantee(n) + 2
  {}

  // ----- a tree that is larger ------------------------------------------------------------------------------------

  /** With everything matched each leaf has its hash. */
  lemma {:induction false} AllHashes(H: Combiner, txids: seq<Digest>, mask: seq<bool>, height: nat, pos: nat)
    requires |txids| == |mask| && pos < Width(|txids|, height) && forall i :: 0 <= i < |mask| ==> mask[i]
    ensures AnyMatch(mask, height, pos)
    ensures |Build(H, txids, mask, height, pos).hashes| == LeavesEnd(|txids|, height, pos) - LeavesStart(height, pos)
    decreases height
  {
    hide Width, CalcHash, Pow, LeavesStart, LeavesEnd;
    if height == 0 {
      WidthHalves(|txids|, 0);
      OneLeaf(|txids|, pos);
    } else {
      Children(|txids|, height, pos);
      LeavesSplit(|txids|, height, pos);
      AllHashes(H, txids, mask, height - 1, 2 * pos);
      if 2 * pos + 1 < Width(|txids|, height - 1) {
        AllHashes(H, txids, mask, height - 1, 2 * pos + 1);
      }
    }
  }

  lemma OneLeaf(n: nat, pos: nat)
    requires pos < n
    ensures LeavesStart(0, pos) == pos && LeavesEnd(n, 0, pos) == pos + 1
  {}

  /** The last node of a level, from the last one of the level below. */
  lemma LastNode(mask: seq<bool>, height: nat, w: nat)
    requires (forall i :: 0 <= i < |mask| ==> mask[i]) && w > 0 && w == Width(|mask|, height)
    ensures (w + 1) / 2 == Width(|mask|, height + 1)
    ensures SingleChildren(mask, height + 1, (w + 1) / 2 - 1) == SingleChildren(mask, height, w - 1) + w % 2
  {
    hide Width, AnyMatch;
    WidthHalves(|mask|, height);
    var pos := (w + 1) / 2 - 1;
    AnyMatchAll(mask, height + 1, pos);
    Children(|mask|, height + 1, pos);
    if w % 2 == 0 {
      assert 2 * pos + 1 == w - 1;
      FullNode(mask, height, 2 * pos);
    } else {
      assert 2 * pos == w - 1;
    }
  }

  lemma {:induction false} AnyMatchAll(mask: seq<bool>, height: nat, pos: nat)
    requires (forall i :: 0 <= i < |mask| ==> mask[i]) && pos < Width(|mask|, height)
    ensures AnyMatch(mask, height, pos)
  {
    hide Width;
    if height == 0 {
      WidthHalves(|mask|, 0);
    } else {
      Children(|mask|, height, pos);
      AnyMatchAll(mask, height - 1, 2 * pos);
    }
  }

  /** 1012 matched transactions have levels of 253 and 127 nodes. */
  lemma TwoSingles(mask: seq<bool>)
    requires |mask| == 1012 && forall i :: 0 <= i < |mask| ==> mask[i]
    ensures Width(1012, 10) == 1 && Width(1012, 9) == 2 && SingleChildren(mask, 10, 0) == 2
  {
    hide Width, SingleChildren;
    WidthHalves(1012, 0);
    NoSingles(mask);
    LastNode(mask, 0, 1012);
    LastNode(mask, 1, 506);
    LastNode(mask, 2, 253);
    LastNode(mask, 3, 127);
    LastNode(mask, 4, 64);
    LastNode(mask, 5, 32);
    LastNode(mask, 6, 16);
    LastNode(mask, 7, 8);
    LastNode(mask, 8, 4);
    LastNode(mask, 9, 2);
  }

  lemma NoSingles(mask: seq<bool>)
    requires |mask| == 1012
    ensures 1011 < Width(1012, 0) && SingleChildren(mask, 0, 1011) == 0
  {
    WidthHalves(1012, 0);
  }

  lemma HeightIs(n: nat, h: nat)
    requires h > 0 && Width(n, h) == 1 && Width(n, h - 1) > 1
    ensures HeightFrom(n, 0) == h
  {
    hide Width;
    var k := HeightFrom(n, 0);
    assert k <= h;
    if k < h {
      WidthShrinks(n, k, h - 1);
    }
  }

  lemma {:induction false} WidthShrinks(n: nat, i: nat, j: nat)
    requires i <= j
    ensures Width(n, j) <= Width(n, i)
  {
    hide Width;
    if i < j {
      WidthHalves(n, j - 1);
      WidthShrinks(n, i, j - 1);
    }
  }

  /** A block of 1012 transactions, all matched, takes one byte more than guaranteed. */
  lemma SizeExample(H: Combiner, txids: seq<Digest>, mask: seq<bool>)
    requires |txids| == |mask| == 1012 && forall i :: 0 <= i < |mask| ==> mask[i]
    ensures var n, bits := |BuildAll(H, txids, mask).hashes|, |BuildAll(H, txids, mask).bits|;
            n == 1012 && bits == 2025 && SerializedSize(n, bits) == Guarantee(n) + 1
  {
    hide Width, Build, SingleChildren, HeightFrom;
    TwoSingles(mask);
    HeightIs(1012, 10);
    WholeTree(1012);
    AllHashes(H, txids, mask, 10, 0);
    BitCount(H, txids, mask, 10, 0);
  }
}
