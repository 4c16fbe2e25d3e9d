/**
 * What a partial Merkle tree on the wire has to be in order to be accepted (ExtractMatches in
 * src/merkleblock.cpp): exactly the flattened form of a tree of the right shape with some subtrees cut off.
 */
module MerkleProof {
  import opened Merkle

  /** A tree with some subtrees replaced by their hash. */
  datatype Pruned = Leaf(hash: Digest, matched: bool) | Cut(hash: Digest) | Single(child: Pruned) | Pair(left: Pruned, right: Pruned)

  /** The tree has the shape that n transactions have below the given node. */
  predicate Fits(n: nat, height: nat, pos: nat, t: Pruned)
    decreases t
  {
    match t
    case Leaf(_, _) => height == 0
    case Cut(_) => height > 0
    case Single(c) => height > 0 && Width(n, height - 1) <= 2 * pos + 1 && Fits(n, height - 1, 2 * pos, c)
    case Pair(l, r) =>
      height > 0 && 2 * pos + 1 < Width(n, height - 1) && Fits(n, height - 1, 2 * pos, l) && Fits(n, height - 1, 2 * pos + 1, r)
  }

  /** One bit per node, parents first. */
  function Bits(t: Pruned): seq<bool> {
    match t
    case Leaf(_, matched) => [matched]
    case Cut(_) => [false]
    case Single(c) => [true] + Bits(c)
    case Pair(l, r) => [true] + (Bits(l) + Bits(r))
  }

  /** The hashes at the ends of the branches, from left to right. */
  function Hashes(t: Pruned): seq<Digest> {
    match t
    case Leaf(h, _) => [h]
    case Cut(h) => [h]
    case Single(c) => Hashes(c)
    case Pair(l, r) => Hashes(l) + Hashes(r)
  }

  function RootOf(H: Combiner, t: Pruned): Digest {
    match t
    case Leaf(h, _) => h
    case Cut(h) => h
    case Single(c) => H(RootOf(H, c), RootOf(H, c))
    case Pair(l, r) => H(RootOf(H, l), RootOf(H, r))
  }

  function MatchesOf(t: Pruned, pos: nat): seq<Found> {
    match t
    case Leaf(h, matched) => if matched then [Found(h, pos)] else []
    case Cut(_) => []
    case Single(c) => MatchesOf(c, 2 * pos)
    case Pair(l, r) => MatchesOf(l, 2 * pos) + MatchesOf(r, 2 * pos + 1)
  }

  /** No node has two children of the same hash. */
  predicate SiblingsUnequal(H: Combiner, t: Pruned) {
    match t
    case Leaf(_, _) => true
    case Cut(_) => true
    case Single(c) => SiblingsUnequal(H, c)
    case Pair(l, r) => RootOf(H, l) != RootOf(H, r) && SiblingsUnequal(H, l) && SiblingsUnequal(H, r)
  }

  lemma {:induction false} NotEmpty(t: Pruned)
    ensures 1 <= |Hashes(t)| <= |Bits(t)|
    decreases t
  {
    match t
    case Leaf(_, _) =>
    case Cut(_) =>
    case Single(c) => NotEmpty(c);
    case Pair(l, r) =>
      NotEmpty(l);
      NotEmpty(r);
  }

  lemma HeldTail<T>(x: T, part: seq<T>, whole: seq<T>, at: nat)
    requires HeldAt([x] + part, whole, at)
    ensures at < |whole| && whole[at] == x && HeldAt(part, whole, at + 1)
  {
    HeldHead([x] + part, whole, at);
    HeldSplit([x], part, whole, at);
  }

  lemma HeldJoin<T>(l: seq<T>, r: seq<T>, whole: seq<T>, at: nat)
    requires HeldAt(l, whole, at) && HeldAt(r, whole, at + |l|)
    ensures HeldAt(l + r, whole, at)
  {
    assert whole[at..at + |l + r|] == whole[at..at + |l|] + whole[at + |l|..at + |l| + |r|];
  }

  /** Extraction reads a flattened tree back, and objects exactly to equal siblings. */
  lemma {:induction false} ExtractFlattened(H: Combiner, n: nat, t: Pruned, bits: seq<bool>, hashes: seq<Digest>, height: nat, pos: nat, b: nat, k: nat)
    requires Fits(n, height, pos, t) && HeldAt(Bits(t), bits, b) && HeldAt(Hashes(t), hashes, k)
    ensures Extract(H, n, bits, hashes, height, pos, b, k) ==
            Extracted(!SiblingsUnequal(H, t), RootOf(H, t), b + |Bits(t)|, k + |Hashes(t)|, MatchesOf(t, pos))
    decreases t
  {
    hide Extract, Width, HeldAt;
    ExtractCases(H, n, bits, hashes, height, pos, b, k);
    match t
    case Leaf(h, _) =>
      HeldHead(Bits(t), bits, b);
      HeldHead(Hashes(t), hashes, k);
    case Cut(h) =>
      HeldHead(Bits(t), bits, b);
      HeldHead(Hashes(t), hashes, k);
    case Single(c) =>
      HeldTail(true, Bits(c), bits, b);
      ExtractFlattened(H, n, c, bits, hashes, height - 1, 2 * pos, b + 1, k);
    case Pair(l, r) =>
      HeldTail(true, Bits(l) + Bits(r), bits, b);
      HeldSplit(Bits(l), Bits(r), bits, b + 1);
      HeldSplit(Hashes(l), Hashes(r), hashes, k);
      ExtractFlattened(H, n, l, bits, hashes, height - 1, 2 * pos, b + 1, k);
      ExtractFlattened(H, n, r, bits, hashes, height - 1, 2 * pos + 1, b + 1 + |Bits(l)|, k + |Hashes(l)|);
  }

  lemma HeldOne<T>(whole: seq<T>, at: nat)
    requires at < |whole|
    ensures HeldAt([whole[at]], whole, at)
  {}

  /** What extraction reads without an objection is a flattened tree. */
  lemma {:induction false} FlattenedExtracted(H: Combiner, n: nat, bits: seq<bool>, hashes: seq<Digest>, height: nat, pos: nat, b: nat, k: nat)
    returns (t: Pruned)
    requires !Extract(H, n, bits, hashes, height, pos, b, k).bad
    ensures Fits(n, height, pos, t) && HeldAt(Bits(t), bits, b) && HeldAt(Hashes(t), hashes, k)
    decreases height
  {
    hide Extract, Width, HeldAt;
    ExtractCases(H, n, bits, hashes, height, pos, b, k);
    HeldOne(bits, b);
    if height > 0 && bits[b] {
      var l := FlattenedExtracted(H, n, bits, hashes, height - 1, 2 * pos, b + 1, k);
      ExtractFlattened(H, n, l, bits, hashes, height - 1, 2 * pos, b + 1, k);
      if 2 * pos + 1 < Width(n, height - 1) {
        var r := FlattenedExtracted(H, n, bits, hashes, height - 1, 2 * pos + 1, b + 1 + |Bits(l)|, k + |Hashes(l)|);
        HeldJoin(Bits(l), Bits(r), bits, b + 1);
        HeldJoin([true], Bits(l) + Bits(r), bits, b);
        HeldJoin(Hashes(l), Hashes(r), hashes, k);
        t := Pair(l, r);
      } else {
        HeldJoin([true], Bits(l), bits, b);
        t := Single(l);
      }
    } else {
      HeldOne(hashes, k);
      t := if height == 0 then Leaf(hashes[k], bits[b]) else Cut(hashes[k]);
    }
  }

  /** There are no more hashes than leaves. */
  lemma {:induction false} FewHashes(n: nat, height: nat, pos: nat, t: Pruned)
    requires Fits(n, height, pos, t) && pos < Width(n, height)
    ensures LeavesStart(height, pos) + |Hashes(t)| <= LeavesEnd(n, height, pos)
    decreases t
  {
    hide Width, LeavesStart, LeavesEnd;
    SomeLeaf(n, height, pos);
    if t.Single? || t.Pair? {
      Children(n, height, pos);
      LeavesSplit(n, height, pos);
    }
    match t
    case Leaf(_, _) =>
    case Cut(_) =>
    case Single(c) => FewHashes(n, height - 1, 2 * pos, c);
    case Pair(l, r) =>
      FewHashes(n, height - 1, 2 * pos, l);
      FewHashes(n, height - 1, 2 * pos + 1, r);
  }

  /** Bits and hashes are those of a pruned tree of n transactions without equal siblings, the bits padded within their last byte. */
  ghost predicate Proves(H: Combiner, n: nat, bits: seq<bool>, hashes: seq<Digest>, t: Pruned) {
    && Fits(n, HeightFrom(n, 0), 0, t) && SiblingsUnequal(H, t)
    && hashes == Hashes(t) && Bits(t) <= bits && (|bits| + 7) / 8 == (|Bits(t)| + 7) / 8
  }

  /** A flattened tree is accepted with its root and its matches; the tests on the numbers of hashes and bits refuse none. */
  lemma ProvesAccepted(H: Combiner, n: nat, bits: seq<bool>, hashes: seq<Digest>, t: Pruned)
    requires 0 < n <= MAX_TRANSACTIONS && Proves(H, n, bits, hashes, t)
    ensures Check(H, n, bits, hashes) == Accepted(RootOf(H, t), MatchesOf(t, 0))
  {
    hide Extract, Width, LeavesStart, LeavesEnd;
    var h := HeightFrom(n, 0);
    OneRoot(n);
    NotEmpty(t);
    FewHashes(n, h, 0, t);
    WholeTree(n);
    ExtractFlattened(H, n, t, bits, hashes, h, 0, 0, 0);
  }

  /** Exactly flattened trees are accepted. */
  lemma CheckIff(H: Combiner, n: nat, bits: seq<bool>, hashes: seq<Digest>)
    ensures Check(H, n, bits, hashes).Accepted? <==> 0 < n <= MAX_TRANSACTIONS && exists t :: Proves(H, n, bits, hashes, t)
  {
    hide Extract, Width, HeightFrom;
    if Check(H, n, bits, hashes).Accepted? {
      var h := HeightFrom(n, 0);
      var t := FlattenedExtracted(H, n, bits, hashes, h, 0, 0, 0);
      ExtractFlattened(H, n, t, bits, hashes, h, 0, 0, 0);
      assert hashes == Hashes(t);
      assert Proves(H, n, bits, hashes, t);
    } else if 0 < n <= MAX_TRANSACTIONS && exists t :: Proves(H, n, bits, hashes, t) {
      var t :| Proves(H, n, bits, hashes, t);
      ProvesAccepted(H, n, bits, hashes, t);
    }
  }

  /** Nothing can be appended to an accepted tree: no hash, and no bit beyond the last byte. */
  lemma NothingAppended(H: Combiner, n: nat, bits: seq<bool>, hashes: seq<Digest>, bits': seq<bool>, hashes': seq<Digest>)
    requires Check(H, n, bits, hashes).Accepted? && Check(H, n, bits', hashes').Accepted? && bits <= bits' && hashes <= hashes'
    ensures hashes' == hashes && (|bits'| + 7) / 8 == (|bits| + 7) / 8 && Check(H, n, bits', hashes') == Check(H, n, bits, hashes)
  {
    hide Extract, Width, HeightFrom, Check;
    CheckIff(H, n, bits, hashes);
    CheckIff(H, n, bits', hashes');
    var t :| Proves(H, n, bits, hashes, t);
    var t' :| Proves(H, n, bits', hashes', t');
    var h := HeightFrom(n, 0);
    ProvesAccepted(H, n, bits, hashes, t);
    ProvesAccepted(H, n, bits', hashes', t');
    assert HeldAt(Hashes(t), hashes', 0);
    ExtractFlattened(H, n, t, bits', hashes', h, 0, 0, 0);
    ExtractFlattened(H, n, t', bits', hashes', h, 0, 0, 0);
  }
}
