/**
 * Partial Merkle trees (src/merkleblock.h, src/merkleblock.cpp): builder, extractor and bit packing,
 * for an arbitrary two-argument hash. Nothing is assumed about the hash: where a result fails, it
 * names the node of the tree at hand where two different pairs of hashes are combined to the same.
 */
module Merkle {
  import opened Basics
  import opened Power
  import opened BitFlags

  type Digest = nat
  type Combiner = (Digest, Digest) -> Digest

  /** uint256(), which the source also returns on failure. */
  const ZERO: Digest := 0

  const MIN_TRANSACTION_WEIGHT := 240
  const MAX_TRANSACTIONS := MAX_BLOCK_WEIGHT / MIN_TRANSACTION_WEIGHT

  /** Two different pairs with one hash. */
  ghost predicate Collision(H: Combiner, a: Digest, b: Digest, c: Digest, d: Digest) {
    H(a, b) == H(c, d) && (a != c || b != d)
  }

  // ----- the shape of the tree -----------------------------------------------------------------------

  /** CalcTreeWidth: the number of nodes at the given height. */
  function Width(n: nat, height: nat): nat {
    PowPositive(2, height);
    (n + Pow(2, height) - 1) / Pow(2, height)
  }

  /** Each level is half as wide as the one below, rounded up. */
  lemma WidthHalves(n: nat, height: nat)
    ensures Width(n, 0) == n
    ensures Width(n, height + 1) == (Width(n, height) + 1) / 2
  {
    var m := Pow(2, height);
    PowPositive(2, height);
    var x := n + 2 * m - 1;
    DivDiv(x, m, 2);
    assert x / m == Width(n, height) + 1 by {
      var q, r := (n + m - 1) / m, (n + m - 1) % m;
      assert x == m * (q + 1) + r;
      DivModUnique(x, m, q + 1, r);
    }
  }

  /** Node pos of a level exists iff its first leaf, pos << height, does. */
  lemma FirstLeaf(n: nat, height: nat, pos: nat)
    ensures pos < Width(n, height) <==> pos * Pow(2, height) < n
  {
    var m := Pow(2, height);
    PowPositive(2, height);
    if n <= pos * m {
      DivModUnique(pos * m + m - 1, m, pos, m - 1);
      DivMonotone(n + m - 1, pos * m + m - 1, m);
    } else {
      DivModUnique(pos * m + m, m, pos + 1, 0);
      DivMonotone(pos * m + m, n + m - 1, m);
    }
  }

  /** The children of a node that exists. */
  lemma Children(n: nat, height: nat, pos: nat)
    requires height > 0 && pos < Width(n, height)
    ensures 2 * pos < Width(n, height - 1)
  {
    WidthHalves(n, height - 1);
  }

  /** The height of the whole tree, found by trying heights upwards. */
  function HeightFrom(n: nat, height: nat): (h: nat)
    ensures Width(n, h) <= 1 && height <= h
    ensures forall k :: height <= k < h ==> Width(n, k) > 1
    decreases Width(n, height)
  {
    WidthHalves(n, height);
    if Width(n, height) <= 1 then height else HeightFrom(n, height + 1)
  }

  lemma OneRoot(n: nat)
    requires n > 0
    ensures Width(n, HeightFrom(n, 0)) == 1
  {
    var h := HeightFrom(n, 0);
    WidthHalves(n, 0);
    if h > 0 {
      WidthHalves(n, h - 1);
    }
  }

  // ----- full tree, builder and extractor as functions ---------------------------------------------------

  /** CalcHash */
  function CalcHash(H: Combiner, txids: seq<Digest>, height: nat, pos: nat): Digest
    requires pos < Width(|txids|, height)
  {
    if height == 0 then
      WidthHalves(|txids|, 0);
      txids[pos]
    else
      Children(|txids|, height, pos);
      var left := CalcHash(H, txids, height - 1, 2 * pos);
      var right := if 2 * pos + 1 < Width(|txids|, height - 1) then CalcHash(H, txids, height - 1, 2 * pos + 1) else left;
      H(left, right)
  }

  /** Is some transaction below this node matched? */
  function AnyMatch(mask: seq<bool>, height: nat, pos: nat): bool
    requires pos < Width(|mask|, height)
  {
    if height == 0 then
      WidthHalves(|mask|, 0);
      mask[pos]
    else
      Children(|mask|, height, pos);
      AnyMatch(mask, height - 1, 2 * pos) ||
      (2 * pos + 1 < Width(|mask|, height - 1) && AnyMatch(mask, height - 1, 2 * pos + 1))
  }

  datatype Built = Built(bits: seq<bool>, hashes: seq<Digest>)

  /** TraverseAndBuild, as the bits and hashes it appends. */
  function Build(H: Combiner, txids: seq<Digest>, mask: seq<bool>, height: nat, pos: nat): Built
    requires |txids| == |mask| && pos < Width(|txids|, height)
  {
    var f := AnyMatch(mask, height, pos);
    if height == 0 || !f then Built([f], [CalcHash(H, txids, height, pos)])
    else
      Children(|txids|, height, pos);
      var l := Build(H, txids, mask, height - 1, 2 * pos);
      if 2 * pos + 1 < Width(|txids|, height - 1) then
        var r := Build(H, txids, mask, height - 1, 2 * pos + 1);
        Built([f] + l.bits + r.bits, l.hashes + r.hashes)
      else
        Built([f] + l.bits, l.hashes)
  }

  datatype Found = Found(txid: Digest, index: nat)

  datatype Extracted = Extracted(bad: bool, hash: Digest, bitsUsed: nat, hashUsed: nat, found: seq<Found>)

  /** Two branches: identical hashes are an error, since the transactions below them must differ. */
  function Joined(H: Combiner, l: Extracted, r: Extracted): Extracted {
    Extracted(l.bad || r.bad || r.hash == l.hash, H(l.hash, r.hash), r.bitsUsed, r.hashUsed, l.found + r.found)
  }

  /** TraverseAndExtract from the given positions in the bit and hash vectors. */
  function Extract(H: Combiner, n: nat, bits: seq<bool>, hashes: seq<Digest>, height: nat, pos: nat, b: nat, k: nat): Extracted
  {
    if b >= |bits| then Extracted(true, ZERO, b, k, [])
    else if height == 0 || !bits[b] then
      if k >= |hashes| then Extracted(true, ZERO, b + 1, k, [])
      else Extracted(false, hashes[k], b + 1, k + 1, if height == 0 && bits[b] then [Found(hashes[k], pos)] else [])
    else
      var l := Extract(H, n, bits, hashes, height - 1, 2 * pos, b + 1, k);
      if 2 * pos + 1 < Width(n, height - 1) then
        var r := Extract(H, n, bits, hashes, height - 1, 2 * pos + 1, l.bitsUsed, l.hashUsed);
        Joined(H, l, r)
      else
        Extracted(l.bad, H(l.hash, l.hash), l.bitsUsed, l.hashUsed, l.found)
  }

  /** The cases of Extract, one by one. */
  lemma ExtractCases(H: Combiner, n: nat, bits: seq<bool>, hashes: seq<Digest>, height: nat, pos: nat, b: nat, k: nat)
    ensures var x := Extract(H, n, bits, hashes, height, pos, b, k);
            if b >= |bits| then x == Extracted(true, ZERO, b, k, [])
            else if height > 0 && bits[b] then
              var l := Extract(H, n, bits, hashes, height - 1, 2 * pos, b + 1, k);
              if 2 * pos + 1 < Width(n, height - 1) then
                x == Joined(H, l, Extract(H, n, bits, hashes, height - 1, 2 * pos + 1, l.bitsUsed, l.hashUsed))
              else x == Extracted(l.bad, H(l.hash, l.hash), l.bitsUsed, l.hashUsed, l.found)
            else if k >= |hashes| then x == Extracted(true, ZERO, b + 1, k, [])
            else x == Extracted(false, hashes[k], b + 1, k + 1, if bits[b] then [Found(hashes[k], pos)] else [])
  {
    hide Width;
  }

  // ----- soundness for arbitrary input --------------------------------------------------------------------

  /** The reported transactions are what the list has at the reported positions. */
  ghost predicate True(txids: seq<Digest>, found: seq<Found>) {
    forall i :: 0 <= i < |found| ==> found[i].index < |txids| && found[i].txid == txids[found[i].index]
  }

  ghost predicate Within(found: seq<Found>, lo: nat, hi: nat) {
    && (forall i :: 0 <= i < |found| ==> lo <= found[i].index < hi)
    && (forall i, j :: 0 <= i < j < |found| ==> found[i].index < found[j].index)
  }

  lemma WithinAppend(l: seq<Found>, r: seq<Found>, lo: nat, mid: nat, hi: nat)
    requires lo <= mid <= hi && Within(l, lo, mid) && Within(r, mid, hi)
    ensures Within(l + r, lo, hi)
  {}

  /** Reported positions lie under their node and strictly increase, whatever the input. */
  lemma {:induction false} ExtractOrdered(H: Combiner, n: nat, bits: seq<bool>, hashes: seq<Digest>,
                                          height: nat, pos: nat, b: nat, k: nat)
    ensures Within(Extract(H, n, bits, hashes, height, pos, b, k).found, pos * Pow(2, height), (pos + 1) * Pow(2, height))
    decreases height
  {
    hide Width, Within;
    if !(b < |bits| && height > 0 && bits[b]) {
      WithinOne(H, n, bits, hashes, height, pos, b, k);
    } else {
      var m := Pow(2, height - 1);
      PowPositive(2, height - 1);
      var l := Extract(H, n, bits, hashes, height - 1, 2 * pos, b + 1, k);
      ExtractOrdered(H, n, bits, hashes, height - 1, 2 * pos, b + 1, k);
      ExtractOrdered(H, n, bits, hashes, height - 1, 2 * pos + 1, l.bitsUsed, l.hashUsed);
      Halves(pos, m);
      if 2 * pos + 1 < Width(n, height - 1) {
        var r := Extract(H, n, bits, hashes, height - 1, 2 * pos + 1, l.bitsUsed, l.hashUsed);
        WithinAppend(l.found, r.found, 2 * pos * m, (2 * pos + 1) * m, (2 * pos + 2) * m);
      } else {
        WithinWider(l.found, 2 * pos * m, (2 * pos + 1) * m, (2 * pos + 2) * m);
      }
    }
  }

  lemma WithinOne(H: Combiner, n: nat, bits: seq<bool>, hashes: seq<Digest>, height: nat, pos: nat, b: nat, k: nat)
    requires b >= |bits| || height == 0 || !bits[b]
    ensures Within(Extract(H, n, bits, hashes, height, pos, b, k).found, pos * Pow(2, height), (pos + 1) * Pow(2, height))
  {}

  lemma WithinWider(l: seq<Found>, lo: nat, mid: nat, hi: nat)
    requires lo <= mid <= hi && Within(l, lo, mid)
    ensures Within(l, lo, hi)
  {}

  lemma Halves(pos: nat, m: nat)
    ensures 2 * pos * m == pos * (2 * m) && (2 * pos + 2) * m == (pos + 1) * (2 * m)
    ensures 2 * pos * m <= (2 * pos + 1) * m <= (2 * pos + 2) * m
  {}

  /** What the extractor combines at a node with children. */
  function ExtractedPair(H: Combiner, n: nat, bits: seq<bool>, hashes: seq<Digest>, height: nat, pos: nat, b: nat, k: nat): (Extracted, Extracted)
    requires height > 0
  {
    var l := Extract(H, n, bits, hashes, height - 1, 2 * pos, b + 1, k);
    (l, if 2 * pos + 1 < Width(n, height - 1) then Extract(H, n, bits, hashes, height - 1, 2 * pos + 1, l.bitsUsed, l.hashUsed) else l)
  }

  /** The true hashes below a node. */
  function TruePair(H: Combiner, txids: seq<Digest>, height: nat, pos: nat): (Digest, Digest)
    requires height > 0 && pos < Width(|txids|, height)
  {
    Children(|txids|, height, pos);
    var left := CalcHash(H, txids, height - 1, 2 * pos);
    (left, if 2 * pos + 1 < Width(|txids|, height - 1) then CalcHash(H, txids, height - 1, 2 * pos + 1) else left)
  }

  /** At some node on the way of the extractor the hashes below are not the true ones, but have the same hash. */
  ghost predicate Forged(H: Combiner, txids: seq<Digest>, bits: seq<bool>, hashes: seq<Digest>, height: nat, pos: nat, b: nat, k: nat)
    requires pos < Width(|txids|, height)
    decreases height
  {
    height > 0 && b < |bits| && bits[b] &&
    var (l, r), (left, right) := ExtractedPair(H, |txids|, bits, hashes, height, pos, b, k), TruePair(H, txids, height, pos);
    Children(|txids|, height, pos);
    || Collision(H, l.hash, r.hash, left, right)
    || Forged(H, txids, bits, hashes, height - 1, 2 * pos, b + 1, k)
    || (2 * pos + 1 < Width(|txids|, height - 1) && Forged(H, txids, bits, hashes, height - 1, 2 * pos + 1, l.bitsUsed, l.hashUsed))
  }

  /**
   * Soundness: if extraction raised no error and arrived at the true hash of the node, then every
   * reported transaction is the true one at its position, or some node on the way was forged.
   */
  lemma {:induction false} ExtractSound(H: Combiner, txids: seq<Digest>, bits: seq<bool>, hashes: seq<Digest>,
                                        height: nat, pos: nat, b: nat, k: nat)
    requires pos < Width(|txids|, height)
    requires var x := Extract(H, |txids|, bits, hashes, height, pos, b, k);
             !x.bad && x.hash == CalcHash(H, txids, height, pos)
    ensures True(txids, Extract(H, |txids|, bits, hashes, height, pos, b, k).found) || Forged(H, txids, bits, hashes, height, pos, b, k)
    decreases height
  {
    hide Width;
    WidthHalves(|txids|, 0);
    if height > 0 && bits[b] && !Forged(H, txids, bits, hashes, height, pos, b, k) {
      Children(|txids|, height, pos);
      var l := Extract(H, |txids|, bits, hashes, height - 1, 2 * pos, b + 1, k);
      ExtractSound(H, txids, bits, hashes, height - 1, 2 * pos, b + 1, k);
      if 2 * pos + 1 < Width(|txids|, height - 1) {
        ExtractSound(H, txids, bits, hashes, height - 1, 2 * pos + 1, l.bitsUsed, l.hashUsed);
      }
    }
  }

  // ----- extracting what was built -------------------------------------------------------------------------

  /** On the way down to the first leaves of two nodes, two different pairs with one hash. */
  ghost predicate SpineCollision(H: Combiner, txids: seq<Digest>, height: nat, p: nat, q: nat)
    requires p < Width(|txids|, height) && q < Width(|txids|, height)
  {
    height > 0 &&
    var a, b := TruePair(H, txids, height, p), TruePair(H, txids, height, q);
    Children(|txids|, height, p);
    Children(|txids|, height, q);
    Collision(H, a.0, a.1, b.0, b.1) || SpineCollision(H, txids, height - 1, 2 * p, 2 * q)
  }

  /** Equal subtree hashes at one height have equal first leaves, or collide on the way down to them. */
  lemma {:induction false} SameHashSameLeaf(H: Combiner, txids: seq<Digest>, height: nat, p: nat, q: nat)
    requires p < Width(|txids|, height) && q < Width(|txids|, height)
    requires CalcHash(H, txids, height, p) == CalcHash(H, txids, height, q)
    ensures p * Pow(2, height) < |txids| && q * Pow(2, height) < |txids|
    ensures txids[p * Pow(2, height)] == txids[q * Pow(2, height)] || SpineCollision(H, txids, height, p, q)
  {
    hide Width;
    FirstLeaf(|txids|, height, p);
    FirstLeaf(|txids|, height, q);
    if height > 0 && !SpineCollision(H, txids, height, p, q) {
      Children(|txids|, height, p);
      Children(|txids|, height, q);
      SameHashSameLeaf(H, txids, height - 1, 2 * p, 2 * q);
      Halves(p, Pow(2, height - 1));
      Halves(q, Pow(2, height - 1));
    } else {
      WidthHalves(|txids|, 0);
    }
  }

  /** With different transactions, equal siblings collide. */
  lemma SiblingsDiffer(H: Combiner, txids: seq<Digest>, height: nat, pos: nat)
    requires Distinct(txids) && 2 * pos + 1 < Width(|txids|, height)
    requires CalcHash(H, txids, height, 2 * pos) == CalcHash(H, txids, height, 2 * pos + 1)
    ensures SpineCollision(H, txids, height, 2 * pos, 2 * pos + 1)
  {
    hide Width, CalcHash, SpineCollision;
    PowPositive(2, height);
    assert (2 * pos + 1) * Pow(2, height) == 2 * pos * Pow(2, height) + Pow(2, height);
    SameHashSameLeaf(H, txids, height, 2 * pos, 2 * pos + 1);
  }

  /** Some node above a match has two children with equal hashes. */
  ghost predicate Twins(H: Combiner, txids: seq<Digest>, mask: seq<bool>, height: nat, pos: nat)
    requires |txids| == |mask| && pos < Width(|txids|, height)
  {
    height > 0 && AnyMatch(mask, height, pos) &&
    (Children(|txids|, height, pos);
     || Twins(H, txids, mask, height - 1, 2 * pos)
     || (2 * pos + 1 < Width(|txids|, height - 1) &&
         (Twins(H, txids, mask, height - 1, 2 * pos + 1) ||
          CalcHash(H, txids, height - 1, 2 * pos + 1) == CalcHash(H, txids, height - 1, 2 * pos))))
  }

  /** Some node above a match has two children below which hashes collide. */
  ghost predicate TwinCollision(H: Combiner, txids: seq<Digest>, mask: seq<bool>, height: nat, pos: nat)
    requires |txids| == |mask| && pos < Width(|txids|, height)
  {
    height > 0 && AnyMatch(mask, height, pos) &&
    (Children(|txids|, height, pos);
     || TwinCollision(H, txids, mask, height - 1, 2 * pos)
     || (2 * pos + 1 < Width(|txids|, height - 1) &&
         (TwinCollision(H, txids, mask, height - 1, 2 * pos + 1) || SpineCollision(H, txids, height - 1, 2 * pos, 2 * pos + 1))))
  }

  lemma {:induction false} TwinsCollide(H: Combiner, txids: seq<Digest>, mask: seq<bool>, height: nat, pos: nat)
    requires |txids| == |mask| && pos < Width(|txids|, height) && Distinct(txids) && Twins(H, txids, mask, height, pos)
    ensures TwinCollision(H, txids, mask, height, pos)
    decreases height
  {
    hide Width, Distinct, AnyMatch, CalcHash, SpineCollision;
    Children(|txids|, height, pos);
    if Twins(H, txids, mask, height - 1, 2 * pos) {
      TwinsCollide(H, txids, mask, height - 1, 2 * pos);
    } else if Twins(H, txids, mask, height - 1, 2 * pos + 1) {
      TwinsCollide(H, txids, mask, height - 1, 2 * pos + 1);
    } else {
      SiblingsDiffer(H, txids, height - 1, pos);
    }
  }

  /** The matched transactions below a node, left to right. */
  ghost function Matches(txids: seq<Digest>, mask: seq<bool>, height: nat, pos: nat): seq<Found>
    requires |txids| == |mask| && pos < Width(|txids|, height)
  {
    if height == 0 then
      WidthHalves(|txids|, 0);
      if mask[pos] then [Found(txids[pos], pos)] else []
    else
      Children(|txids|, height, pos);
      Matches(txids, mask, height - 1, 2 * pos) +
      (if 2 * pos + 1 < Width(|txids|, height - 1) then Matches(txids, mask, height - 1, 2 * pos + 1) else [])
  }

  lemma {:induction false} NoMatches(txids: seq<Digest>, mask: seq<bool>, height: nat, pos: nat)
    requires |txids| == |mask| && pos < Width(|txids|, height) && !AnyMatch(mask, height, pos)
    ensures Matches(txids, mask, height, pos) == []
  {
    if height > 0 {
      Children(|txids|, height, pos);
      NoMatches(txids, mask, height - 1, 2 * pos);
      if 2 * pos + 1 < Width(|txids|, height - 1) {
        NoMatches(txids, mask, height - 1, 2 * pos + 1);
      }
    }
  }

  ghost predicate HeldAt<T>(part: seq<T>, whole: seq<T>, at: nat) {
    at + |part| <= |whole| && whole[at..at + |part|] == part
  }

  lemma HeldSplit<T>(l: seq<T>, r: seq<T>, whole: seq<T>, at: nat)
    requires HeldAt(l + r, whole, at)
    ensures HeldAt(l, whole, at) && HeldAt(r, whole, at + |l|)
  {
    assert l == (l + r)[..|l|] == whole[at..at + |l|];
    assert r == (l + r)[|l|..] == whole[at + |l|..at + |l| + |r|];
  }

  lemma HeldHead<T>(part: seq<T>, whole: seq<T>, at: nat)
    requires HeldAt(part, whole, at) && part != []
    ensures at < |whole| && whole[at] == part[0]
  {
    assert whole[at..at + |part|][0] == whole[at];
  }

  /** What the extractor should say about a built subtree. */
  ghost function Expected(H: Combiner, txids: seq<Digest>, mask: seq<bool>, height: nat, pos: nat, b: nat, k: nat): Extracted
    requires |txids| == |mask| && pos < Width(|txids|, height)
  {
    var built := Build(H, txids, mask, height, pos);
    Extracted(Twins(H, txids, mask, height, pos), CalcHash(H, txids, height, pos), b + |built.bits|, k + |built.hashes|, Matches(txids, mask, height, pos))
  }

  lemma ExtractBuiltLeaf(H: Combiner, txids: seq<Digest>, mask: seq<bool>, height: nat, pos: nat,
                         bits: seq<bool>, hashes: seq<Digest>, b: nat, k: nat)
    requires |txids| == |mask| && pos < Width(|txids|, height)
    requires height == 0 || !AnyMatch(mask, height, pos)
    requires var built := Build(H, txids, mask, height, pos); HeldAt(built.bits, bits, b) && HeldAt(built.hashes, hashes, k)
    ensures Extract(H, |txids|, bits, hashes, height, pos, b, k) == Expected(H, txids, mask, height, pos, b, k)
  {
    var built := Build(H, txids, mask, height, pos);
    HeldHead(built.bits, bits, b);
    HeldHead(built.hashes, hashes, k);
    if !AnyMatch(mask, height, pos) {
      NoMatches(txids, mask, height, pos);
    }
  }

  /** A built node with a match below: what its parts are, and where they sit. */
  lemma BuiltNode(H: Combiner, txids: seq<Digest>, mask: seq<bool>, height: nat, pos: nat,
                  bits: seq<bool>, hashes: seq<Digest>, b: nat, k: nat)
    requires |txids| == |mask| && height > 0 && pos < Width(|txids|, height) && 2 * pos < Width(|txids|, height - 1)
    requires AnyMatch(mask, height, pos)
    requires var built := Build(H, txids, mask, height, pos); HeldAt(built.bits, bits, b) && HeldAt(built.hashes, hashes, k)
    ensures b < |bits| && bits[b]
    ensures var l := Build(H, txids, mask, height - 1, 2 * pos);
            && HeldAt(l.bits, bits, b + 1) && HeldAt(l.hashes, hashes, k)
            && (2 * pos + 1 < Width(|txids|, height - 1) ==>
                  var r := Build(H, txids, mask, height - 1, 2 * pos + 1);
                  HeldAt(r.bits, bits, b + 1 + |l.bits|) && HeldAt(r.hashes, hashes, k + |l.hashes|))
  {
    hide Width, HeldAt;
    var built := Build(H, txids, mask, height, pos);
    var l := Build(H, txids, mask, height - 1, 2 * pos);
    HeldHead(built.bits, bits, b);
    if 2 * pos + 1 < Width(|txids|, height - 1) {
      var r := Build(H, txids, mask, height - 1, 2 * pos + 1);
      assert built.bits == [true] + (l.bits + r.bits);
      HeldSplit([true], l.bits + r.bits, bits, b);
      HeldSplit(l.bits, r.bits, bits, b + 1);
      HeldSplit(l.hashes, r.hashes, hashes, k);
    } else {
      HeldSplit([true], l.bits, bits, b);
    }
  }

  /** What is expected of a node follows from what is expected of its children. */
  lemma ExpectedNode(H: Combiner, txids: seq<Digest>, mask: seq<bool>, height: nat, pos: nat, b: nat, k: nat)
    requires |txids| == |mask| && height > 0 && pos < Width(|txids|, height) && 2 * pos < Width(|txids|, height - 1)
    requires AnyMatch(mask, height, pos)
    ensures var l := Expected(H, txids, mask, height - 1, 2 * pos, b + 1, k);
            Expected(H, txids, mask, height, pos, b, k) ==
            if 2 * pos + 1 < Width(|txids|, height - 1)
            then Joined(H, l, Expected(H, txids, mask, height - 1, 2 * pos + 1, l.bitsUsed, l.hashUsed))
            else Extracted(l.bad, H(l.hash, l.hash), l.bitsUsed, l.hashUsed, l.found)
  {
    hide Width, AnyMatch;
  }

  /** Extraction undoes building, wherever the built data sits inside longer vectors, and objects exactly to twins. */
  lemma {:induction false} ExtractBuilt(H: Combiner, txids: seq<Digest>, mask: seq<bool>, height: nat, pos: nat,
                                        bits: seq<bool>, hashes: seq<Digest>, b: nat, k: nat)
    requires |txids| == |mask| && pos < Width(|txids|, height)
    requires var built := Build(H, txids, mask, height, pos); HeldAt(built.bits, bits, b) && HeldAt(built.hashes, hashes, k)
    ensures Extract(H, |txids|, bits, hashes, height, pos, b, k) == Expected(H, txids, mask, height, pos, b, k)
    decreases height
  {
    hide Width, HeldAt, Build, CalcHash, Matches, AnyMatch, Twins;
    if height == 0 || !AnyMatch(mask, height, pos) {
      ExtractBuiltLeaf(H, txids, mask, height, pos, bits, hashes, b, k);
    } else {
      Children(|txids|, height, pos);
      BuiltNode(H, txids, mask, height, pos, bits, hashes, b, k);
      ExpectedNode(H, txids, mask, height, pos, b, k);
      ExtractBuilt(H, txids, mask, height - 1, 2 * pos, bits, hashes, b + 1, k);
      if 2 * pos + 1 < Width(|txids|, height - 1) {
        var l := Build(H, txids, mask, height - 1, 2 * pos);
        ExtractBuilt(H, txids, mask, height - 1, 2 * pos + 1, bits, hashes, b + 1 + |l.bits|, k + |l.hashes|);
      }
    }
  }

  // ----- the matched transactions, and how many hashes they need ---------------------------------------------

  /** The matched transactions with positions in [lo, hi). */
  function Picked(txids: seq<Digest>, mask: seq<bool>, lo: nat, hi: nat): seq<Found>
    requires |txids| == |mask| && hi <= |txids|
  {
    if hi <= lo then []
    else Picked(txids, mask, lo, hi - 1) + if mask[hi - 1] then [Found(txids[hi - 1], hi - 1)] else []
  }

  lemma {:induction false} PickedSplit(txids: seq<Digest>, mask: seq<bool>, lo: nat, mid: nat, hi: nat)
    requires |txids| == |mask| && lo <= mid <= hi <= |txids|
    ensures Picked(txids, mask, lo, hi) == Picked(txids, mask, lo, mid) + Picked(txids, mask, mid, hi)
  {
    if hi > mid {
      PickedSplit(txids, mask, lo, mid, hi - 1);
    }
  }

  /** The leaves below a node, from start to end. */
  function LeavesStart(height: nat, pos: nat): nat {
    pos * Pow(2, height)
  }

  function LeavesEnd(n: nat, height: nat, pos: nat): nat {
    if (pos + 1) * Pow(2, height) < n then (pos + 1) * Pow(2, height) else n
  }

  lemma LeavesSplit(n: nat, height: nat, pos: nat)
    requires height > 0 && pos < Width(n, height)
    ensures LeavesStart(height - 1, 2 * pos) == LeavesStart(height, pos) < LeavesEnd(n, height, pos) <= n
    ensures 2 * pos + 1 < Width(n, height - 1) ==>
              && LeavesStart(height, pos) < LeavesEnd(n, height - 1, 2 * pos)
              && LeavesEnd(n, height - 1, 2 * pos) == LeavesStart(height - 1, 2 * pos + 1) < LeavesEnd(n, height, pos)
              && LeavesEnd(n, height - 1, 2 * pos + 1) == LeavesEnd(n, height, pos)
    ensures 2 * pos + 1 >= Width(n, height - 1) ==> LeavesEnd(n, height - 1, 2 * pos) == LeavesEnd(n, height, pos)
  {
    var m := Pow(2, height - 1);
    hide Width;
    FirstLeaf(n, height, pos);
    FirstLeaf(n, height - 1, 2 * pos + 1);
    PowPositive(2, height - 1);
    Halves(pos, m);
    assert (2 * pos + 1) * m + m == (2 * pos + 2) * m && 2 * pos * m + m == (2 * pos + 1) * m;
  }

  lemma SomeLeaf(n: nat, height: nat, pos: nat)
    requires pos < Width(n, height)
    ensures LeavesStart(height, pos) < LeavesEnd(n, height, pos) <= n
  {
    hide Width;
    FirstLeaf(n, height, pos);
    PowPositive(2, height);
    assert (pos + 1) * Pow(2, height) == pos * Pow(2, height) + Pow(2, height);
  }

  lemma PickedLeaf(txids: seq<Digest>, mask: seq<bool>, pos: nat)
    requires |txids| == |mask| && pos < Width(|txids|, 0)
    ensures LeavesStart(0, pos) == pos < |txids| && LeavesEnd(|txids|, 0, pos) == pos + 1
    ensures Matches(txids, mask, 0, pos) == Picked(txids, mask, pos, pos + 1)
  {
    WidthHalves(|txids|, 0);
    assert Picked(txids, mask, pos, pos) == [];
  }

  lemma MatchesLeaf(txids: seq<Digest>, mask: seq<bool>, pos: nat)
    requires |txids| == |mask| && pos < Width(|txids|, 0)
    ensures pos < |txids| && Matches(txids, mask, 0, pos) == if mask[pos] then [Found(txids[pos], pos)] else []
  {
    WidthHalves(|txids|, 0);
  }

  lemma MatchesNode(txids: seq<Digest>, mask: seq<bool>, height: nat, pos: nat)
    requires |txids| == |mask| && height > 0 && pos < Width(|txids|, height) && 2 * pos < Width(|txids|, height - 1)
    ensures Matches(txids, mask, height, pos) == Matches(txids, mask, height - 1, 2 * pos) +
            if 2 * pos + 1 < Width(|txids|, height - 1) then Matches(txids, mask, height - 1, 2 * pos + 1) else []
  {
    hide Width;
  }

  /** The subtree's matches are the matched transactions among its leaves. */
  lemma {:induction false} MatchesPicked(txids: seq<Digest>, mask: seq<bool>, height: nat, pos: nat)
    requires |txids| == |mask| && pos < Width(|txids|, height)
    ensures LeavesEnd(|txids|, height, pos) <= |txids|
    ensures Matches(txids, mask, height, pos) ==
            Picked(txids, mask, LeavesStart(height, pos), LeavesEnd(|txids|, height, pos))
    decreases height
  {
    hide Width, Picked, Pow, LeavesStart, LeavesEnd, Matches;
    if height == 0 {
      MatchesLeaf(txids, mask, pos);
      PickedLeaf(txids, mask, pos);
    } else {
      Children(|txids|, height, pos);
      MatchesNode(txids, mask, height, pos);
      LeavesSplit(|txids|, height, pos);
      MatchesPicked(txids, mask, height - 1, 2 * pos);
      if 2 * pos + 1 < Width(|txids|, height - 1) {
        MatchesPicked(txids, mask, height - 1, 2 * pos + 1);
        PickedSplit(txids, mask, LeavesStart(height, pos), LeavesStart(height - 1, 2 * pos + 1), LeavesEnd(|txids|, height, pos));
      }
    }
  }

  /** A set flag means that there are matches below. */
  lemma {:induction false} SomeMatches(txids: seq<Digest>, mask: seq<bool>, height: nat, pos: nat)
    requires |txids| == |mask| && pos < Width(|txids|, height)
    ensures AnyMatch(mask, height, pos) <==> Matches(txids, mask, height, pos) != []
    decreases height
  {
    hide Width;
    if height > 0 {
      Children(|txids|, height, pos);
      SomeMatches(txids, mask, height - 1, 2 * pos);
      if 2 * pos + 1 < Width(|txids|, height - 1) {
        SomeMatches(txids, mask, height - 1, 2 * pos + 1);
      }
    }
  }

  /** At most one hash per leaf below the node. */
  lemma {:induction false} HashesPerLeaf(H: Combiner, txids: seq<Digest>, mask: seq<bool>, height: nat, pos: nat)
    requires |txids| == |mask| && pos < Width(|txids|, height)
    ensures |Build(H, txids, mask, height, pos).hashes| <= LeavesEnd(|txids|, height, pos) - LeavesStart(height, pos)
    decreases height
  {
    hide Width, CalcHash, AnyMatch, LeavesStart, LeavesEnd;
    SomeLeaf(|txids|, height, pos);
    if height > 0 && AnyMatch(mask, height, pos) {
      Children(|txids|, height, pos);
      LeavesSplit(|txids|, height, pos);
      HashesPerLeaf(H, txids, mask, height - 1, 2 * pos);
      if 2 * pos + 1 < Width(|txids|, height - 1) {
        HashesPerLeaf(H, txids, mask, height - 1, 2 * pos + 1);
      }
    }
  }

  /** At most one hash per matched transaction and level, plus one; and a bit for every hash. */
  lemma {:induction false} HashesPerMatch(H: Combiner, txids: seq<Digest>, mask: seq<bool>, height: nat, pos: nat)
    requires |txids| == |mask| && pos < Width(|txids|, height)
    ensures var built := Build(H, txids, mask, height, pos);
            && |built.hashes| <= 1 + |Matches(txids, mask, height, pos)| * height
            && 1 <= |built.hashes| <= |built.bits|
    decreases height
  {
    hide Width, CalcHash, AnyMatch, Matches;
    if height == 0 || !AnyMatch(mask, height, pos) {
      MulLarger(height, 1 + |Matches(txids, mask, height, pos)|);
    } else {
      Children(|txids|, height, pos);
      SomeMatches(txids, mask, height, pos);
      MatchCount(txids, mask, height, pos);
      HashesPerMatch(H, txids, mask, height - 1, 2 * pos);
      if 2 * pos + 1 < Width(|txids|, height - 1) {
        HashesPerMatch(H, txids, mask, height - 1, 2 * pos + 1);
        CountStep(|Matches(txids, mask, height - 1, 2 * pos)|, |Matches(txids, mask, height - 1, 2 * pos + 1)|, height);
      } else {
        CountStep(|Matches(txids, mask, height - 1, 2 * pos)|, 0, height);
      }
    }
  }

  lemma MatchCount(txids: seq<Digest>, mask: seq<bool>, height: nat, pos: nat)
    requires |txids| == |mask| && height > 0 && pos < Width(|txids|, height) && 2 * pos < Width(|txids|, height - 1)
    ensures |Matches(txids, mask, height, pos)| == |Matches(txids, mask, height - 1, 2 * pos)| +
              if 2 * pos + 1 < Width(|txids|, height - 1) then |Matches(txids, mask, height - 1, 2 * pos + 1)| else 0
  {
    hide Width;
  }

  lemma CountStep(l: nat, r: nat, height: nat)
    requires height > 0 && l + r > 0
    ensures 2 + l * (height - 1) + r * (height - 1) <= 1 + (l + r) * height
  {
    assert l * (height - 1) == l * height - l && r * (height - 1) == r * height - r;
    assert (l + r) * height == l * height + r * height;
  }

  /** How many nodes on the way to a match have a single child. */
  function SingleChildren(mask: seq<bool>, height: nat, pos: nat): nat
    requires pos < Width(|mask|, height)
  {
    if height == 0 || !AnyMatch(mask, height, pos) then 0
    else
      Children(|mask|, height, pos);
      SingleChildren(mask, height - 1, 2 * pos) +
      if 2 * pos + 1 < Width(|mask|, height - 1) then SingleChildren(mask, height - 1, 2 * pos + 1) else 1
  }

  /** The documented bound of 2N-1 flag bits for N hashes is met iff no node on the way to a match has a single child. */
  lemma {:induction false} BitCount(H: Combiner, txids: seq<Digest>, mask: seq<bool>, height: nat, pos: nat)
    requires |txids| == |mask| && pos < Width(|txids|, height)
    ensures var built := Build(H, txids, mask, height, pos);
            |built.bits| == 2 * |built.hashes| - 1 + SingleChildren(mask, height, pos)
    decreases height
  {
    hide Width, CalcHash, AnyMatch;
    if height > 0 && AnyMatch(mask, height, pos) {
      Children(|txids|, height, pos);
      BitCount(H, txids, mask, height - 1, 2 * pos);
      if 2 * pos + 1 < Width(|txids|, height - 1) {
        BitCount(H, txids, mask, height - 1, 2 * pos + 1);
      }
    }
  }

  /** Three transactions with the last one matched already need a bit more than documented. */
  lemma BitCountExample(H: Combiner, a: Digest, b: Digest, c: Digest)
    ensures Width(3, 2) == 1
    ensures var built := Build(H, [a, b, c], [false, false, true], 2, 0); |built.bits| == 4 && |built.hashes| == 2
  {
    WidthHalves(3, 0);
    WidthHalves(3, 1);
    hide Width;
    var mask := [false, false, true];
    assert !AnyMatch(mask, 0, 0) && !AnyMatch(mask, 0, 1) && AnyMatch(mask, 0, 2);
    assert !AnyMatch(mask, 1, 0) && AnyMatch(mask, 1, 1);
    var txids := [a, b, c];
    assert Build(H, txids, mask, 1, 0).bits == [false] && |Build(H, txids, mask, 1, 0).hashes| == 1;
    assert Build(H, txids, mask, 0, 2) == Built([true], [c]);
    assert Build(H, txids, mask, 1, 1) == Built([true, true], [c]);
  }

  // ----- bit packing ---------------------------------------------------------------------------------------

  /** The flag bits of a byte string, least significant bit first. */
  function Unpacked(bytes: seq<bv8>): seq<bool> {
    FlagsOf(bytes, 8 * |bytes|)
  }

  /** bits, padded with zeros to whole bytes. */
  ghost predicate PackedAs(bits: seq<bool>, bytes: seq<bv8>) {
    && |bytes| == (|bits| + 7) / 8
    && (forall p :: 0 <= p < 8 * |bytes| ==> Unpacked(bytes)[p] == (p < |bits| && bits[p]))
  }

  /** Unpacking gives back the bits that were packed, followed by less than a byte of zeros. */
  lemma UnpackPacked(bits: seq<bool>, bytes: seq<bv8>)
    requires PackedAs(bits, bytes)
    ensures HeldAt(bits, Unpacked(bytes), 0)
    ensures |bits| <= |Unpacked(bytes)| < |bits| + 8
    ensures forall p :: |bits| <= p < |Unpacked(bytes)| ==> !Unpacked(bytes)[p]
  {
    assert Unpacked(bytes)[0..|bits|] == bits;
  }

  /** The write half of SerializationOp. */
  method PackBits(bits: seq<bool>) returns (bytes: seq<bv8>)
    ensures PackedAs(bits, bytes)
  {
    var vBytes := new bv8[(|bits| + 7) / 8](i => 0);
    forall j | 0 <= j < 8
      ensures !BitAt(0, j)
    {}
    for p := 0 to |bits|
      invariant forall q :: 0 <= q < 8 * vBytes.Length ==> BitAt(vBytes[q / 8], q % 8) == (q < p && bits[q])
    {
      if bits[p] {
        PackOne(vBytes[..], p);
        vBytes[p / 8] := vBytes[p / 8] | Mask(p % 8);
      }
    }
    bytes := vBytes[..];
  }

  lemma PackOne(bytes: seq<bv8>, p: nat)
    requires p < 8 * |bytes|
    ensures var bytes' := bytes[p / 8 := bytes[p / 8] | Mask(p % 8)];
            forall q :: 0 <= q < 8 * |bytes| ==> BitAt(bytes'[q / 8], q % 8) == (q == p || BitAt(bytes[q / 8], q % 8))
  {
    forall q | 0 <= q < 8 * |bytes| && q / 8 == p / 8
      ensures BitAt(bytes[p / 8] | Mask(p % 8), q % 8) == (q == p || BitAt(bytes[q / 8], q % 8))
    {
      ByteSet(bytes[p / 8], p % 8, q % 8);
    }
  }

  /** The read half of SerializationOp. */
  method UnpackBits(bytes: seq<bv8>) returns (bits: seq<bool>)
    ensures bits == Unpacked(bytes)
  {
    var vBits := new bool[8 * |bytes|];
    for p := 0 to 8 * |bytes|
      invariant forall q :: 0 <= q < p ==> vBits[q] == BitAt(bytes[q / 8], q % 8)
    {
      vBits[p] := bytes[p / 8] & Mask(p % 8) != 0;
    }
    bits := vBits[..];
  }

  // ----- ExtractMatches ----------------------------------------------------------------------------------------

  datatype Proof = Rejected | Accepted(root: Digest, found: seq<Found>)

  /** All the checks around the traversal. */
  function Check(H: Combiner, n: nat, bits: seq<bool>, hashes: seq<Digest>): Proof {
    if n == 0 || n > MAX_TRANSACTIONS || |hashes| > n || |bits| < |hashes| then Rejected
    else
      var x := Extract(H, n, bits, hashes, HeightFrom(n, 0), 0, 0, 0);
      if x.bad || (x.bitsUsed + 7) / 8 != (|bits| + 7) / 8 || x.hashUsed != |hashes| then Rejected
      else Accepted(x.hash, x.found)
  }

  /** What the constructor puts into vBits and vHash. */
  function BuildAll(H: Combiner, txids: seq<Digest>, mask: seq<bool>): Built
    requires 0 < |txids| == |mask|
  {
    OneRoot(|txids|);
    Build(H, txids, mask, HeightFrom(|txids|, 0), 0)
  }

  /** The Merkle root of the whole list. */
  function Root(H: Combiner, txids: seq<Digest>): Digest
    requires txids != []
  {
    OneRoot(|txids|);
    CalcHash(H, txids, HeightFrom(|txids|, 0), 0)
  }

  /**
   * Soundness of acceptance, for arbitrary bits and hashes: a proof accepted with the true root of a
   * list of that length reports true transactions at strictly increasing positions, or some node was forged.
   */
  lemma AcceptedIsTrue(H: Combiner, txids: seq<Digest>, bits: seq<bool>, hashes: seq<Digest>)
    requires txids != [] && Check(H, |txids|, bits, hashes).Accepted?
    requires Check(H, |txids|, bits, hashes).root == Root(H, txids)
    ensures Width(|txids|, HeightFrom(|txids|, 0)) == 1
    ensures var found := Check(H, |txids|, bits, hashes).found;
            && (forall i, j :: 0 <= i < j < |found| ==> found[i].index < found[j].index)
            && (True(txids, found) || Forged(H, txids, bits, hashes, HeightFrom(|txids|, 0), 0, 0, 0))
  {
    hide Extract, CalcHash, Width, Forged;
    var h := HeightFrom(|txids|, 0);
    OneRoot(|txids|);
    ExtractSound(H, txids, bits, hashes, h, 0, 0, 0);
    ExtractOrdered(H, |txids|, bits, hashes, h, 0, 0, 0);
  }

  /**
   * Round trip: build, pack, unpack, extract. Exactly the matched transactions come back, in order, with the
   * root of the full tree, unless some node above a match has two children with equal hashes; for different
   * transactions these show a collision. The hash count respects both documented bounds.
   */
  lemma RoundTrip(H: Combiner, txids: seq<Digest>, mask: seq<bool>, bytes: seq<bv8>)
    requires 0 < |txids| == |mask| <= MAX_TRANSACTIONS
    requires PackedAs(BuildAll(H, txids, mask).bits, bytes)
    ensures Width(|txids|, HeightFrom(|txids|, 0)) == 1
    ensures var hashes, h := BuildAll(H, txids, mask).hashes, HeightFrom(|txids|, 0);
            var picked := Picked(txids, mask, 0, |txids|);
            && |hashes| <= |txids| && |hashes| <= 1 + |picked| * h
            && Check(H, |txids|, Unpacked(bytes), hashes) == (if Twins(H, txids, mask, h, 0) then Rejected else Accepted(Root(H, txids), picked))
            && (Distinct(txids) && Twins(H, txids, mask, h, 0) ==> TwinCollision(H, txids, mask, h, 0))
  {
    hide Extract, CalcHash, Width, Build, Picked, Distinct, Twins, TwinCollision;
    var n, h := |txids|, HeightFrom(|txids|, 0);
    WholeTree(n);
    var built := BuildAll(H, txids, mask);
    HashesPerLeaf(H, txids, mask, h, 0);
    HashesPerMatch(H, txids, mask, h, 0);
    MatchesPicked(txids, mask, h, 0);
    UnpackPacked(built.bits, bytes);
    assert HeldAt(built.hashes, built.hashes, 0);
    ExtractBuilt(H, txids, mask, h, 0, Unpacked(bytes), built.hashes, 0, 0);
    if Distinct(txids) && Twins(H, txids, mask, h, 0) {
      TwinsCollide(H, txids, mask, h, 0);
    }
  }

  /** The root covers every leaf. */
  lemma WholeTree(n: nat)
    requires n > 0
    ensures Width(n, HeightFrom(n, 0)) == 1
    ensures LeavesStart(HeightFrom(n, 0), 0) == 0 && LeavesEnd(n, HeightFrom(n, 0), 0) == n
  {
    var h := HeightFrom(n, 0);
    OneRoot(n);
    FirstLeaf(n, h, 1);
  }

  // ----- the class ----------------------------------------------------------------------------------------------

  class PartialMerkleTree {
    const H: Combiner
    const nTransactions: nat
    var vBits: seq<bool>
    var vHash: seq<Digest>
    var fBad: bool

    /** A tree read from the wire: arbitrary bits and hashes. */
    constructor Read(H: Combiner, nTransactions: nat, vHash: seq<Digest>, vBytes: seq<bv8>)
      ensures this.H == H && this.nTransactions == nTransactions && this.vHash == vHash
      ensures vBits == Unpacked(vBytes) && !fBad
    {
      this.H, this.nTransactions, this.vHash, fBad := H, nTransactions, vHash, false;
      var bits := UnpackBits(vBytes);
      vBits := bits;
    }

    /** A tree built from a transaction list and a mask. */
    constructor (H: Combiner, vTxid: seq<Digest>, vMatch: seq<bool>)
      requires 0 < |vTxid| == |vMatch|
      ensures this.H == H && nTransactions == |vTxid| && !fBad
      ensures Built(vBits, vHash) == BuildAll(H, vTxid, vMatch)
    {
      this.H, nTransactions, fBad := H, |vTxid|, false;
      vBits, vHash := [], [];
      new;
      var nHeight := CalcHeight();
      OneRoot(nTransactions);
      TraverseAndBuild(nHeight, 0, vTxid, vMatch);
    }

    method CalcHeight() returns (nHeight: nat)
      ensures nHeight == HeightFrom(nTransactions, 0)
    {
      hide Width;
      nHeight := 0;
      while Width(nTransactions, nHeight) > 1
        invariant HeightFrom(nTransactions, nHeight) == HeightFrom(nTransactions, 0)
        decreases Width(nTransactions, nHeight)
      {
        WidthHalves(nTransactions, nHeight);
        nHeight := nHeight + 1;
      }
    }

    method TraverseAndBuild(height: nat, pos: nat, vTxid: seq<Digest>, vMatch: seq<bool>)
      requires nTransactions == |vTxid| == |vMatch| && pos < Width(nTransactions, height)
      modifies this`vBits, this`vHash
      ensures var built := Build(H, vTxid, vMatch, height, pos);
              vBits == old(vBits) + built.bits && vHash == old(vHash) + built.hashes
      decreases height
    {
      hide Width, CalcHash, AnyMatch;
      var fParentOfMatch := AnyMatchBelow(height, pos, vTxid, vMatch);
      vBits := vBits + [fParentOfMatch];
      if height == 0 || !fParentOfMatch {
        vHash := vHash + [CalcHash(H, vTxid, height, pos)];
      } else {
        Children(nTransactions, height, pos);
        TraverseAndBuild(height - 1, pos * 2, vTxid, vMatch);
        ghost var l := Build(H, vTxid, vMatch, height - 1, 2 * pos);
        if pos * 2 + 1 < Width(nTransactions, height - 1) {
          TraverseAndBuild(height - 1, pos * 2 + 1, vTxid, vMatch);
          ghost var r := Build(H, vTxid, vMatch, height - 1, 2 * pos + 1);
          Regroup(old(vBits), [true], l.bits, r.bits);
          Regroup(old(vHash), [], l.hashes, r.hashes);
        } else {
          Regroup(old(vBits), [true], l.bits, []);
        }
      }
    }

    /** The scan of the leaves below a node for a match. */
    method AnyMatchBelow(height: nat, pos: nat, ghost vTxid: seq<Digest>, vMatch: seq<bool>) returns (found: bool)
      requires nTransactions == |vTxid| == |vMatch| && pos < Width(nTransactions, height)
      ensures found <==> AnyMatch(vMatch, height, pos)
    {
      SomeLeaf(nTransactions, height, pos);
      MatchesPicked(vTxid, vMatch, height, pos);
      SomeMatches(vTxid, vMatch, height, pos);
      hide Width, AnyMatch, Matches, Pow;
      found := false;
      var p := pos * Pow(2, height);
      while p < (pos + 1) * Pow(2, height) && p < nTransactions
        invariant LeavesStart(height, pos) <= p <= LeavesEnd(nTransactions, height, pos)
        invariant found <==> Picked(vTxid, vMatch, LeavesStart(height, pos), p) != []
        decreases nTransactions - p
      {
        found := found || vMatch[p];
        p := p + 1;
      }
    }

    /** Consumes bits from nBits and hashes from nHash on, appending what it finds. */
    method TraverseAndExtract(height: nat, pos: nat, nBits: nat, nHash: nat, matches: seq<Digest>, indexes: seq<nat>)
      returns (hash: Digest, nBitsUsed: nat, nHashUsed: nat, vMatch: seq<Digest>, vnIndex: seq<nat>)
      modifies this`fBad
      ensures var x := Extract(H, nTransactions, vBits, vHash, height, pos, nBits, nHash);
              && fBad == (old(fBad) || x.bad) && hash == x.hash && nBitsUsed == x.bitsUsed && nHashUsed == x.hashUsed
              && vMatch == matches + Txids(x.found) && vnIndex == indexes + Indexes(x.found)
      decreases height
    {
      hide Width, Txids, Indexes, Extract;
      ExtractCases(H, nTransactions, vBits, vHash, height, pos, nBits, nHash);
      FoundNone();
      vMatch, vnIndex, nBitsUsed, nHashUsed := matches, indexes, nBits, nHash;
      if nBitsUsed >= |vBits| {
        fBad := true;
        return ZERO, nBitsUsed, nHashUsed, vMatch, vnIndex;
      }
      var fParentOfMatch := vBits[nBitsUsed];
      nBitsUsed := nBitsUsed + 1;
      if height == 0 || !fParentOfMatch {
        if nHashUsed >= |vHash| {
          fBad := true;
          return ZERO, nBitsUsed, nHashUsed, vMatch, vnIndex;
        }
        hash := vHash[nHashUsed];
        nHashUsed := nHashUsed + 1;
        if height == 0 && fParentOfMatch {
          FoundOne(hash, pos);
          vMatch, vnIndex := vMatch + [hash], vnIndex + [pos];
        }
      } else {
        ghost var l := Extract(H, nTransactions, vBits, vHash, height - 1, pos * 2, nBits + 1, nHash);
        var left, right;
        left, nBitsUsed, nHashUsed, vMatch, vnIndex :=
          TraverseAndExtract(height - 1, pos * 2, nBitsUsed, nHashUsed, vMatch, vnIndex);
        if pos * 2 + 1 < Width(nTransactions, height - 1) {
          right, nBitsUsed, nHashUsed, vMatch, vnIndex :=
            TraverseAndExtract(height - 1, pos * 2 + 1, nBitsUsed, nHashUsed, vMatch, vnIndex);
          FoundAppend(matches, indexes, l.found, Extract(H, nTransactions, vBits, vHash, height - 1, pos * 2 + 1, l.bitsUsed, l.hashUsed).found);
          if right == left {
            fBad := true;
          }
        } else {
          right := left;
        }
        hash := H(left, right);
      }
    }

    /**
     * ExtractMatches: clears vMatch but appends to the caller's vnIndex. Rejection is reported as a zero
     * root, acceptance as in Check.
     */
    method ExtractMatches(indexes: seq<nat>) returns (root: Digest, vMatch: seq<Digest>, vnIndex: seq<nat>)
      modifies this`fBad
      ensures var proof := Check(H, nTransactions, vBits, vHash);
              && (old(fBad) || proof.Rejected? ==> root == ZERO)
              && (!old(fBad) && proof.Accepted? ==> root == proof.root && vMatch == Txids(proof.found)
                                                    && vnIndex == indexes + Indexes(proof.found) && !fBad)
    {
      hide Extract, Width, HeightFrom;
      root, vMatch, vnIndex := ZERO, [], indexes;
      if nTransactions == 0 || nTransactions > MAX_TRANSACTIONS || |vHash| > nTransactions || |vBits| < |vHash| {
        return;
      }
      var nHeight := CalcHeight();
      var hash, nBitsUsed, nHashUsed;
      hash, nBitsUsed, nHashUsed, vMatch, vnIndex := TraverseAndExtract(nHeight, 0, 0, 0, vMatch, vnIndex);
      if fBad || (nBitsUsed + 7) / 8 != (|vBits| + 7) / 8 || nHashUsed != |vHash| {
        return;
      }
      root := hash;
    }
  }

  lemma Regroup<T>(a: seq<T>, b: seq<T>, c: seq<T>, d: seq<T>)
    ensures a + b + c + d == a + (b + c + d) && a + b + c == a + (b + c)
    ensures a + c + d == a + (c + d)
  {}

  lemma FoundNone()
    ensures Txids([]) == [] && Indexes([]) == []
  {}

  lemma FoundOne(txid: Digest, index: nat)
    ensures Txids([Found(txid, index)]) == [txid] && Indexes([Found(txid, index)]) == [index]
  {}

  lemma FoundAppend(txids: seq<Digest>, indexes: seq<nat>, l: seq<Found>, r: seq<Found>)
    ensures txids + Txids(l) + Txids(r) == txids + Txids(l + r)
    ensures indexes + Indexes(l) + Indexes(r) == indexes + Indexes(l + r)
  {}

  function Txids(found: seq<Found>): seq<Digest> {
    seq(|found|, i requires 0 <= i < |found| => found[i].txid)
  }

  function Indexes(found: seq<Found>): seq<nat> {
    seq(|found|, i requires 0 <= i < |found| => found[i].index)
  }
}
