/**
 * The constant-space computation of a Merkle root and of its mutation flag (src/consensus/merkle.cpp): one hash per
 * level for the complete subtrees seen so far, and a final sweep over the rightmost branch.
 */
module MerkleRoot {
  import opened Merkle
  import opened Power

  /** Levels of the table of subtree hashes, and the most leaves for which a 32-bit counter does not wrap. */
  const LEVELS := 32
  const MAX_LEAVES := 0x8000_0000

  // ----- bits of a counter --------------------------------------------------------------------------------

  function Up(level: nat): (p: nat)
    ensures p > 0
  {
    PowPositive(2, level);
    Pow(2, level)
  }

  /** Bit number level of a counter. */
  predicate Bit(count: nat, level: nat) { count / Up(level) % 2 == 1 }

  lemma UpNext(level: nat)
    ensures Up(level + 1) == 2 * Up(level) && Up(0) == 1
  {}

  lemma Halve(count: nat, level: nat)
    ensures count / Up(level + 1) == count / Up(level) / 2
  {
    UpNext(level);
    DivDiv(count, Up(level), 2);
  }

  lemma {:induction false} LevelBound(level: nat)
    requires Up(level) <= MAX_LEAVES
    ensures level < LEVELS
  {
    if level >= LEVELS {
      PowGrows(2, LEVELS, level);
      Pow32();
    }
  }

  lemma Pow32()
    ensures Pow(2, 32) == 0x1_0000_0000
  {
    assert Pow(2, 4) == 16;
    PowAdd(2, 4, 4);
    PowAdd(2, 8, 8);
    PowAdd(2, 16, 16);
  }

  // ----- complete subtrees ----------------------------------------------------------------------------------

  /** The subtree exists and all its leaves do. */
  ghost predicate Complete(n: nat, level: nat, pos: nat) { (pos + 1) * Up(level) <= n }

  lemma CompleteExists(n: nat, level: nat, pos: nat)
    requires Complete(n, level, pos)
    ensures pos < Width(n, level)
  {
    FirstLeaf(n, level, pos);
    assert (pos + 1) * Up(level) == pos * Up(level) + Up(level);
  }

  ghost function Node(H: Combiner, leaves: seq<Digest>, level: nat, pos: nat): Digest {
    if pos < Width(|leaves|, level) then CalcHash(H, leaves, level, pos) else ZERO
  }

  lemma NodeLeaf(H: Combiner, leaves: seq<Digest>, pos: nat)
    requires pos < |leaves|
    ensures Node(H, leaves, 0, pos) == leaves[pos]
  {
    WidthHalves(|leaves|, 0);
  }

  lemma NodePair(H: Combiner, leaves: seq<Digest>, level: nat, pos: nat)
    requires 2 * pos + 1 < Width(|leaves|, level)
    ensures Node(H, leaves, level + 1, pos) == H(Node(H, leaves, level, 2 * pos), Node(H, leaves, level, 2 * pos + 1))
  {
    WidthHalves(|leaves|, level);
    hide Width;
  }

  lemma NodeSingle(H: Combiner, leaves: seq<Digest>, level: nat, pos: nat)
    requires 2 * pos + 1 == Width(|leaves|, level)
    ensures Node(H, leaves, level + 1, pos) == H(Node(H, leaves, level, 2 * pos), Node(H, leaves, level, 2 * pos))
  {
    WidthHalves(|leaves|, level);
    hide Width;
  }

  // ----- one leaf -----------------------------------------------------------------------------------------------

  /** For every bit of the counter the hash of the complete subtree that ends where the lower bits begin. */
  ghost predicate Stored(H: Combiner, leaves: seq<Digest>, inner: seq<Digest>, count: nat) {
    |inner| == LEVELS && forall l: nat :: l < LEVELS && Bit(count, l) ==> inner[l] == Node(H, leaves, l, Last(count, l))
  }

  /** The last complete subtree of a level among the first leaves. */
  function Last(count: nat, level: nat): nat { if count / Up(level) == 0 then 0 else count / Up(level) - 1 }

  /** Two complete subtrees of equal hash are joined when the leaf number count comes in. */
  ghost predicate Joins(H: Combiner, leaves: seq<Digest>, count: nat, level: nat) {
    count > 0 && count % Up(level + 1) == 0 && Node(H, leaves, level, Last(count - 1, level)) == Node(H, leaves, level, Last(count, level))
  }

  lemma Multiple(count: nat, level: nat, k: nat)
    requires count % Up(level) == 0 && count > 0 && k == count / Up(level)
    ensures count == k * Up(level) && k > 0 && (count - 1) / Up(level) == k - 1
  {
    var u := Up(level);
    assert count == u * k;
    assert k > 0;
    assert count - 1 == u * (k - 1) + (u - 1);
    DivModUnique(count - 1, u, k - 1, u - 1);
  }

  /** The counter has a zero at this level: an even number of subtrees. */
  lemma EvenCount(count: nat, level: nat)
    requires 0 < count && count % Up(level) == 0 && !Bit(count, level)
    ensures Bit(count - 1, level) && Last(count, level) == Last(count - 1, level) + 1 && count % Up(level + 1) == 0
    ensures Up(level) < count && Last(count - 1, level) == 2 * Last(count, level + 1) && count == (Last(count, level) + 1) * Up(level)
  {
    UpNext(level);
    Halve(count, level);
    var k := count / Up(level);
    var m := k / 2;
    Multiple(count, level, k);
    hide Up;
    assert k == 2 * m && m > 0;
    assert count == m * Up(level + 1);
    DivModUnique(count, Up(level + 1), m, 0);
    assert (2 * m - 1) % 2 == 1;
    assert count == 2 * m * Up(level);
    MulMonotone(2, 2 * m, Up(level));
  }

  /** The subtree is a right child, and its sibling is stored. */
  lemma RightChild(H: Combiner, leaves: seq<Digest>, count: nat, level: nat)
    requires 0 < count <= |leaves| && count % Up(level) == 0 && !Bit(count, level)
    ensures Bit(count - 1, level) && Last(count, level) == Last(count - 1, level) + 1 && count % Up(level + 1) == 0
    ensures Up(level) < count
    ensures Node(H, leaves, level + 1, Last(count, level + 1)) ==
            H(Node(H, leaves, level, Last(count - 1, level)), Node(H, leaves, level, Last(count, level)))
  {
    hide Up, Bit, Last, Node, Width;
    EvenCount(count, level);
    CompleteExists(|leaves|, level, Last(count, level));
    NodePair(H, leaves, level, Last(count, level + 1));
  }

  /** Above the level where the carry stops nothing changes. */
  lemma {:induction false} AboveSame(count: nat, level: nat, l: nat)
    requires count > 0 && count % Up(level) == 0 && Bit(count, level) && level < l
    ensures count / Up(l) == (count - 1) / Up(l)
    decreases l
  {
    Halve(count, l - 1);
    Halve(count - 1, l - 1);
    if l == level + 1 {
      Multiple(count, level, count / Up(level));
    } else {
      AboveSame(count, level, l - 1);
    }
  }

  /** Below it the counter has only zeros. */
  lemma {:induction false} BelowZero(count: nat, level: nat, l: nat)
    requires count % Up(level) == 0 && l < level
    ensures count % Up(l + 1) == 0 && !Bit(count, l)
    decreases level - l
  {
    hide Bit, Up;
    if l + 1 < level {
      BelowZero(count, level, l + 1);
      EvenBelow(count, l + 1);
    }
    EvenBelow(count, l);
  }

  lemma EvenBelow(count: nat, l: nat)
    requires count % Up(l + 1) == 0
    ensures count % Up(l) == 0 && !Bit(count, l)
  {
    UpNext(l);
    var u, k := Up(l), count / Up(l + 1);
    assert count == 2 * u * k;
    assert count == u * (2 * k);
    DivModUnique(count, u, 2 * k, 0);
  }

  /** At or above it no subtrees are joined. */
  lemma NotDivisible(count: nat, level: nat, l: nat)
    requires count % Up(level) == 0 && Bit(count, level) && level <= l
    ensures count % Up(l + 1) != 0
  {
    hide Bit;
    if count % Up(l + 1) == 0 {
      if level < l {
        BelowZero(count, l + 1, level);
      } else {
        EvenBelow(count, level);
      }
    }
  }

  lemma StoredNext(H: Combiner, leaves: seq<Digest>, inner: seq<Digest>, count: nat, level: nat, h: Digest)
    requires count > 0 && Stored(H, leaves, inner, count - 1) && level < LEVELS
    requires count % Up(level) == 0 && Bit(count, level) && h == Node(H, leaves, level, Last(count, level))
    ensures Stored(H, leaves, inner[level := h], count)
  {
    hide Node, Up;
    forall l: nat | l < LEVELS && Bit(count, l)
      ensures inner[level := h][l] == Node(H, leaves, l, Last(count, l))
    {
      if l < level {
        BelowZero(count, level, l);
      } else if l > level {
        AboveSame(count, level, l);
        assert Bit(count - 1, l);
      }
    }
  }

  /** Process one leaf: join complete subtrees as the carry of the counter goes up. */
  method AddLeaf(H: Combiner, leaves: seq<Digest>, inner: array<Digest>, count: nat) returns (mutated: bool)
    requires 0 < count <= |leaves| <= MAX_LEAVES && Stored(H, leaves, inner[..], count - 1)
    modifies inner
    ensures Stored(H, leaves, inner[..], count)
    ensures mutated <==> exists l: nat :: Joins(H, leaves, count, l)
  {
    hide Node, Up, Joins, Bit, Stored, Last;
    var h := leaves[count - 1];
    FirstLevel(H, leaves, count);
    mutated := false;
    var level := 0;
    while !Bit(count, level)
      invariant count % Up(level) == 0 && Up(level) <= count && h == Node(H, leaves, level, Last(count, level))
      invariant inner[..] == old(inner[..])
      invariant mutated <==> exists l: nat :: l < level && Joins(H, leaves, count, l)
      decreases count - Up(level)
    {
      RightChild(H, leaves, count, level);
      LevelBound(level);
      StoredAt(H, leaves, inner[..], count - 1, level);
      JoinsIff(H, leaves, count, level);
      UpNext(level);
      Within(count, level);
      mutated := mutated || inner[level] == h;
      h := H(inner[level], h);
      level := level + 1;
    }
    LevelBound(level);
    StoredSize(H, leaves, inner[..], count - 1);
    StoredNext(H, leaves, inner[..], count, level, h);
    NoMoreJoins(H, leaves, count, level);
    inner[level] := h;
  }

  lemma Within(count: nat, level: nat)
    requires count % Up(level + 1) == 0 && count > 0
    ensures Up(level + 1) <= count
  {}

  lemma FirstLevel(H: Combiner, leaves: seq<Digest>, count: nat)
    requires 0 < count <= |leaves|
    ensures Up(0) == 1 && count % Up(0) == 0 && leaves[count - 1] == Node(H, leaves, 0, Last(count, 0))
  {
    NodeLeaf(H, leaves, count - 1);
  }

  lemma StoredSize(H: Combiner, leaves: seq<Digest>, inner: seq<Digest>, count: nat)
    requires Stored(H, leaves, inner, count)
    ensures |inner| == LEVELS
  {}

  lemma StoredAt(H: Combiner, leaves: seq<Digest>, inner: seq<Digest>, count: nat, level: nat)
    requires Stored(H, leaves, inner, count) && level < LEVELS && Bit(count, level)
    ensures |inner| == LEVELS && inner[level] == Node(H, leaves, level, Last(count, level))
  {}

  lemma JoinsIff(H: Combiner, leaves: seq<Digest>, count: nat, level: nat)
    requires count > 0 && count % Up(level + 1) == 0
    ensures Joins(H, leaves, count, level) <==> Node(H, leaves, level, Last(count - 1, level)) == Node(H, leaves, level, Last(count, level))
  {}

  lemma NoMoreJoins(H: Combiner, leaves: seq<Digest>, count: nat, level: nat)
    requires count % Up(level) == 0 && Bit(count, level)
    ensures forall l: nat :: level <= l ==> !Joins(H, leaves, count, l)
  {
    forall l: nat | level <= l
      ensures !Joins(H, leaves, count, l)
    {
      NotDivisible(count, level, l);
    }
  }

  // ----- the sweep ----------------------------------------------------------------------------------------------

  lemma WidthBounds(n: nat, level: nat)
    requires n > 0
    ensures var w := Width(n, level); w > 0 && (w - 1) * Up(level) < n <= w * Up(level)
    ensures n % Up(level) != 0 ==> n / Up(level) == Width(n, level) - 1
    ensures n % Up(level) == 0 ==> n / Up(level) == Width(n, level)
  {
    var u := Up(level);
    var q, r := n / u, n % u;
    assert n == u * q + r;
    if r == 0 {
      DivModUnique(n + u - 1, u, q, u - 1);
      assert q > 0;
      assert (q - 1) * u == q * u - u;
    } else {
      assert n + u - 1 == u * (q + 1) + (r - 1);
      DivModUnique(n + u - 1, u, q + 1, r - 1);
    }
  }

  /** An even number of nodes, the last one not complete: the one before is stored. */
  lemma LeftSibling(H: Combiner, leaves: seq<Digest>, inner: seq<Digest>, level: nat)
    requires leaves != [] && Stored(H, leaves, inner, |leaves|) && level < LEVELS
    requires Width(|leaves|, level) % 2 == 0 && |leaves| % Up(level) != 0
    ensures |inner| == LEVELS && Width(|leaves|, level) >= 2 && inner[level] == Node(H, leaves, level, Width(|leaves|, level) - 2)
    ensures Width(|leaves|, level + 1) == Width(|leaves|, level) / 2 && |leaves| % Up(level + 1) != 0
    ensures Node(H, leaves, level + 1, Width(|leaves|, level + 1) - 1) ==
            H(Node(H, leaves, level, Width(|leaves|, level) - 2), Node(H, leaves, level, Width(|leaves|, level) - 1))
  {
    hide Node, Up, Width;
    var n, w := |leaves|, Width(|leaves|, level);
    WidthBounds(n, level);
    WidthHalves(n, level);
    assert n / Up(level) == w - 1 && (w - 1) % 2 == 1;
    assert Bit(n, level);
    NodePair(H, leaves, level, w / 2 - 1);
    NotMultiple(n, level);
  }

  lemma NotMultiple(n: nat, level: nat)
    requires n % Up(level) != 0
    ensures n % Up(level + 1) != 0
  {
    if n % Up(level + 1) == 0 {
      EvenBelow(n, level);
    }
  }

  /** An odd number of nodes: the last one is joined with itself. */
  lemma Alone(H: Combiner, leaves: seq<Digest>, level: nat)
    requires leaves != [] && Width(|leaves|, level) % 2 == 1 && Width(|leaves|, level) > 1
    ensures var w := Width(|leaves|, level);
            && Width(|leaves|, level + 1) == (w + 1) / 2
            && Node(H, leaves, level + 1, (w + 1) / 2 - 1) == H(Node(H, leaves, level, w - 1), Node(H, leaves, level, w - 1))
  {
    WidthHalves(|leaves|, level);
    hide Width, Node;
    NodeSingle(H, leaves, level, (Width(|leaves|, level) - 1) / 2);
  }

  /** The counter, rounded up to a multiple of the subtrees of a level, has the bits of the number of nodes there. */
  lemma PaddedBit(w: nat, level: nat)
    ensures Bit(w * Up(level), level) <==> w % 2 == 1
    ensures w > 0 ==> (w * Up(level) == Up(level) <==> w == 1)
  {
    DivModUnique(w * Up(level), Up(level), w, 0);
    if w > 1 {
      MulMonotone(2, w, Up(level));
    }
  }

  lemma TopLevel()
    ensures Up(31) == MAX_LEAVES
  {
    Pow32();
    UpNext(31);
  }

  /** Rounded up to whole subtrees, the counter stays within 2^31 if it starts there. */
  lemma PaddedBound(n: nat, level: nat)
    requires 0 < n <= MAX_LEAVES && level < LEVELS
    ensures Width(n, level) * Up(level) <= MAX_LEAVES
  {
    var u, v := Up(level), Up(31 - level);
    TopLevel();
    PowAdd(2, level, 31 - level);
    assert MAX_LEAVES == v * u;
    hide Up;
    WidthBounds(n, level);
    var w := Width(n, level);
    if w > v {
      MulMonotone(v, w - 1, u);
    }
    MulMonotone(w, v, u);
  }

  /** The counter of the sweep fits 32 bits at every level exactly up to 2^31 leaves. */
  lemma CounterFitsIff(n: nat)
    requires 0 < n < 0x1_0000_0000
    ensures (forall level: nat :: level < LEVELS ==> Width(n, level) * Up(level) < 0x1_0000_0000) <==> n <= MAX_LEAVES
  {
    hide Width, Up;
    if n <= MAX_LEAVES {
      forall level: nat | level < LEVELS
        ensures Width(n, level) * Up(level) < 0x1_0000_0000
      {
        PaddedBound(n, level);
      }
    } else {
      TopLevel();
      WidthBounds(n, 31);
      assert Width(n, 31) * Up(31) >= 0x1_0000_0000;
    }
  }

  /** Up to the first one of the counter. */
  method SkipZeros(ghost n: nat, count: nat) returns (level: nat)
    requires 0 < count == n <= MAX_LEAVES
    ensures level < LEVELS && count % Up(level) == 0 && Bit(count, level)
    ensures Width(n, level) * Up(level) == count && Width(n, level) % 2 == 1 && (level > 0 ==> Width(n, level - 1) > 1)
  {
    hide Width, Up, Bit;
    level := 0;
    Start(n);
    while !Bit(count, level)
      invariant count % Up(level) == 0 && Up(level) <= count && (level > 0 ==> Width(n, level - 1) > 1)
      decreases count - Up(level)
    {
      EvenNodes(n, level);
      UpNext(level);
      level := level + 1;
    }
    LevelBound(level);
    OddNodes(n, level);
  }

  lemma Start(n: nat)
    requires n > 0
    ensures Up(0) == 1 && n % Up(0) == 0
  {}

  lemma EvenNodes(n: nat, level: nat)
    requires n > 0 && n % Up(level) == 0 && !Bit(n, level)
    ensures Width(n, level) > 1 && n % Up(level + 1) == 0 && Up(level + 1) <= n
  {
    hide Up, Bit, Width;
    EvenCount(n, level);
    CompleteExists(n, level, Last(n, level));
    Within(n, level);
  }

  lemma OddNodes(n: nat, level: nat)
    requires n > 0 && n % Up(level) == 0 && Bit(n, level)
    ensures Width(n, level) * Up(level) == n && Width(n, level) % 2 == 1
  {
    WidthBounds(n, level);
    Multiple(n, level, n / Up(level));
  }

  lemma LastNode(H: Combiner, leaves: seq<Digest>, inner: seq<Digest>, level: nat)
    requires leaves != [] && Stored(H, leaves, inner, |leaves|) && level < LEVELS && |leaves| % Up(level) == 0 && Bit(|leaves|, level)
    ensures |inner| == LEVELS && Width(|leaves|, level) > 0 && inner[level] == Node(H, leaves, level, Width(|leaves|, level) - 1)
  {
    WidthBounds(|leaves|, level);
  }

  /** The number of nodes of a level is odd there, so the number of leaves is no multiple of the next. */
  lemma OddNotMultiple(n: nat, level: nat)
    requires n > 0 && Width(n, level) % 2 == 1
    ensures n % Up(level + 1) != 0
  {
    hide Width, Up;
    WidthBounds(n, level);
    if n % Up(level) == 0 {
      assert Bit(n, level);
      NotDivisible(n, level, level);
    } else {
      NotMultiple(n, level);
    }
  }

  /** The counter stands for the nodes of a level, all taken as complete; the last of them is not. */
  ghost predicate Filled(n: nat, level: nat, count: nat) {
    count == Width(n, level) * Up(level) && n % Up(level) != 0
  }

  lemma Join(H: Combiner, leaves: seq<Digest>, inner: seq<Digest>, level: nat, count: nat)
    requires leaves != [] && Stored(H, leaves, inner, |leaves|) && Width(|leaves|, level) > 0 && Filled(|leaves|, level, count)
    requires count <= MAX_LEAVES && !Bit(count, level)
    ensures level < LEVELS == |inner| && Filled(|leaves|, level + 1, count) && 0 < Width(|leaves|, level + 1) < Width(|leaves|, level)
    ensures Node(H, leaves, level + 1, Width(|leaves|, level + 1) - 1) == H(inner[level], Node(H, leaves, level, Width(|leaves|, level) - 1))
  {
    hide Width, Up, Bit, Node, Stored;
    InBound(Width(|leaves|, level), level, count);
    PaddedBit(Width(|leaves|, level), level);
    LeftSibling(H, leaves, inner, level);
    UpNext(level);
  }

  /** Join with the stored subtrees as long as the last node is a right child. */
  method Propagate(H: Combiner, leaves: seq<Digest>, inner: array<Digest>, count: nat, start: nat, first: Digest) returns (level: nat, h: Digest)
    requires leaves != [] && |leaves| <= MAX_LEAVES && Stored(H, leaves, inner[..], |leaves|)
    requires 0 < start <= LEVELS && Width(|leaves|, start) > 0 && Filled(|leaves|, start, count) && count <= MAX_LEAVES
    requires first == Node(H, leaves, start, Width(|leaves|, start) - 1) && Width(|leaves|, start - 1) > 1
    ensures start <= level <= LEVELS && Width(|leaves|, level) > 0 && Filled(|leaves|, level, count) && Bit(count, level)
    ensures Width(|leaves|, level - 1) > 1 && Width(|leaves|, level) <= Width(|leaves|, start)
    ensures h == Node(H, leaves, level, Width(|leaves|, level) - 1)
  {
    hide Width, Up, Bit, Node, Stored, Filled;
    level, h := start, first;
    while !Bit(count, level)
      invariant start <= level <= LEVELS && Width(|leaves|, level) > 0 && Filled(|leaves|, level, count)
      invariant Width(|leaves|, level - 1) > 1 && Width(|leaves|, level) <= Width(|leaves|, start)
      invariant h == Node(H, leaves, level, Width(|leaves|, level) - 1)
      decreases Width(|leaves|, level)
    {
      Join(H, leaves, inner[..], level, count);
      h := H(inner[level], h);
      level := level + 1;
    }
  }

  lemma InBound(w: nat, level: nat, count: nat)
    requires w > 0 && count == w * Up(level) <= MAX_LEAVES
    ensures level < LEVELS
  {
    MulMonotone(1, w, Up(level));
    LevelBound(level);
  }

  /** The final sweep over the rightmost branch. */
  method Sweep(H: Combiner, leaves: seq<Digest>, inner: array<Digest>) returns (root: Digest)
    requires leaves != [] && |leaves| <= MAX_LEAVES && Stored(H, leaves, inner[..], |leaves|)
    ensures root == Root(H, leaves)
  {
    hide Width, Up, Bit, Node, Stored;
    var count := |leaves|;
    var level := SkipZeros(|leaves|, count);
    LastNode(H, leaves, inner[..], level);
    var h := inner[level];
    PaddedBit(Width(|leaves|, level), level);
    while count != Up(level)
      invariant level <= LEVELS && Width(|leaves|, level) > 0 && count == Width(|leaves|, level) * Up(level) <= MAX_LEAVES
      invariant Width(|leaves|, level) % 2 == 1 && (level > 0 ==> Width(|leaves|, level - 1) > 1)
      invariant h == Node(H, leaves, level, Width(|leaves|, level) - 1)
      invariant count == Up(level) <==> Width(|leaves|, level) == 1
      decreases Width(|leaves|, level)
    {
      Alone(H, leaves, level);
      OddNotMultiple(|leaves|, level);
      InBound(Width(|leaves|, level), level, count);
      Padded(|leaves|, level);
      h := H(h, h);
      count := count + Up(level);
      level, h := Propagate(H, leaves, inner, count, level + 1, h);
      PaddedBit(Width(|leaves|, level), level);
    }
    Top(H, leaves, level);
    root := h;
  }

  lemma Padded(n: nat, level: nat)
    requires 0 < n <= MAX_LEAVES && level < LEVELS && Width(n, level) % 2 == 1 && Width(n, level) > 1
    ensures Width(n, level) * Up(level) + Up(level) == Width(n, level + 1) * Up(level + 1) <= MAX_LEAVES
    ensures 0 < Width(n, level + 1) < Width(n, level)
  {
    var w := Width(n, level);
    WidthHalves(n, level);
    UpNext(level);
    hide Width, Up;
    assert (w + 1) * Up(level) == w * Up(level) + Up(level);
    assert (w + 1) / 2 * 2 == w + 1;
    InnerLevel(n, level);
    PaddedBound(n, level + 1);
  }

  lemma InnerLevel(n: nat, level: nat)
    requires 0 < n <= MAX_LEAVES && level < LEVELS && Width(n, level) > 1
    ensures level + 1 < LEVELS
  {
    hide Width, Up;
    PaddedBound(n, level);
    MulMonotone(2, Width(n, level), Up(level));
    UpNext(level);
    LevelBound(level + 1);
  }

  lemma Top(H: Combiner, leaves: seq<Digest>, level: nat)
    requires leaves != [] && Width(|leaves|, level) == 1 && (level > 0 ==> Width(|leaves|, level - 1) > 1)
    ensures Node(H, leaves, level, 0) == Root(H, leaves)
  {
    var h := HeightFrom(|leaves|, 0);
    OneRoot(|leaves|);
    if h < level {
      Narrower(|leaves|, h, level - 1);
    }
    hide Width;
    assert h == level;
  }

  lemma {:induction false} Narrower(n: nat, i: nat, j: nat)
    requires i <= j
    ensures Width(n, j) <= Width(n, i) || Width(n, j) <= 1
    decreases j - i
  {
    if i < j {
      Narrower(n, i, j - 1);
      WidthHalves(n, j - 1);
    }
    hide Width;
  }

  // ----- the whole computation ----------------------------------------------------------------------------------

  /** Two complete subtrees side by side have the same hash. */
  ghost predicate Mutated(H: Combiner, leaves: seq<Digest>) {
    exists l: nat, m: nat :: Repeats(H, leaves, l, m)
  }

  ghost predicate Repeats(H: Combiner, leaves: seq<Digest>, level: nat, m: nat) {
    Complete(|leaves|, level, 2 * m + 1) && Node(H, leaves, level, 2 * m) == Node(H, leaves, level, 2 * m + 1)
  }

  lemma JoinsRepeats(H: Combiner, leaves: seq<Digest>, count: nat, l: nat)
    requires 0 < count <= |leaves| && Joins(H, leaves, count, l)
    ensures Mutated(H, leaves)
  {
    EvenBelow(count, l);
    Multiple(count, l, count / Up(l));
    var k := count / Up(l);
    assert k % 2 == 0 && k >= 2;
    var m := k / 2 - 1;
    assert (2 * m + 2) * Up(l) == count;
    hide Node, Up;
    assert Repeats(H, leaves, l, m);
  }

  lemma RepeatsJoins(H: Combiner, leaves: seq<Digest>, l: nat, m: nat) returns (count: nat)
    requires Repeats(H, leaves, l, m)
    ensures 0 < count <= |leaves| && Joins(H, leaves, count, l)
  {
    hide Node, Up;
    count := (2 * m + 2) * Up(l);
    EndOfPair(l, m, count);
  }

  /** The leaf that ends a pair of subtrees. */
  lemma EndOfPair(l: nat, m: nat, count: nat)
    requires count == (2 * m + 2) * Up(l)
    ensures count > 0 && count % Up(l + 1) == 0 && Last(count - 1, l) == 2 * m && Last(count, l) == 2 * m + 1
  {
    UpNext(l);
    hide Up;
    assert count == (m + 1) * Up(l + 1);
    DivModUnique(count, Up(l + 1), m + 1, 0);
    DivModUnique(count, Up(l), 2 * m + 2, 0);
    Multiple(count, l, 2 * m + 2);
  }

  /** Some leaf up to the given one joins two equal subtrees. */
  ghost predicate JoinedBy(H: Combiner, leaves: seq<Digest>, count: nat) {
    exists c: nat, l: nat :: c <= count && Joins(H, leaves, c, l)
  }

  lemma MutatedIff(H: Combiner, leaves: seq<Digest>)
    ensures JoinedBy(H, leaves, |leaves|) <==> Mutated(H, leaves)
  {
    hide Repeats, Node, Up;
    if JoinedBy(H, leaves, |leaves|) {
      var c: nat, l: nat :| c <= |leaves| && Joins(H, leaves, c, l);
      JoinsRepeats(H, leaves, c, l);
    }
    if Mutated(H, leaves) {
      var l: nat, m: nat :| Repeats(H, leaves, l, m);
      var c := RepeatsJoins(H, leaves, l, m);
    }
  }

  lemma JoinedNext(H: Combiner, leaves: seq<Digest>, count: nat)
    ensures var next := count + 1; JoinedBy(H, leaves, next) <==> JoinedBy(H, leaves, count) || exists l: nat :: Joins(H, leaves, next, l)
    ensures !JoinedBy(H, leaves, 0)
  {
    assert forall l: nat :: !Joins(H, leaves, 0, l);
    hide Joins;
  }

  lemma NothingStored(H: Combiner, leaves: seq<Digest>, inner: seq<Digest>)
    requires |inner| == LEVELS
    ensures Stored(H, leaves, inner, 0)
  {}

  /** ComputeMerkleRoot: the root of the whole tree, and whether two complete subtrees side by side are equal. */
  method ComputeMerkleRoot(H: Combiner, leaves: seq<Digest>) returns (root: Digest, mutated: bool)
    requires |leaves| <= MAX_LEAVES
    ensures root == if leaves == [] then ZERO else Root(H, leaves)
    ensures mutated <==> Mutated(H, leaves)
  {
    hide Stored, JoinedBy, Mutated, Joins, Root;
    MutatedIff(H, leaves);
    mutated := false;
    var inner := new Digest[LEVELS](i => ZERO);
    NothingStored(H, leaves, inner[..]);
    JoinedNext(H, leaves, 0);
    for count := 0 to |leaves|
      invariant Stored(H, leaves, inner[..], count) && (mutated <==> JoinedBy(H, leaves, count))
    {
      JoinedNext(H, leaves, count);
      var joins := AddLeaf(H, leaves, inner, count + 1);
      mutated := mutated || joins;
    }
    if leaves == [] {
      return ZERO, mutated;
    }
    root := Sweep(H, leaves, inner);
  }

  // ----- what the flag is for -----------------------------------------------------------------------------------

  /** The right child of a node, or its only child. */
  function Right(n: nat, level: nat, pos: nat): nat {
    if 2 * pos + 1 < Width(n, level) then 2 * pos + 1 else 2 * pos
  }

  lemma NodeJoined(H: Combiner, leaves: seq<Digest>, level: nat, pos: nat)
    requires pos < Width(|leaves|, level + 1)
    ensures 2 * pos < Width(|leaves|, level)
    ensures Node(H, leaves, level + 1, pos) == H(Node(H, leaves, level, 2 * pos), Node(H, leaves, level, Right(|leaves|, level, pos)))
  {
    Children(|leaves|, level + 1, pos);
    if 2 * pos + 1 < Width(|leaves|, level) {
      NodePair(H, leaves, level, pos);
    } else {
      NodeSingle(H, leaves, level, pos);
    }
  }

  /** A node of one tree and a node of the other, of one level, join different pairs to the same hash. */
  ghost predicate CollidesAt(H: Combiner, a: seq<Digest>, b: seq<Digest>, level: nat, p: nat, q: nat) {
    && p < Width(|a|, level + 1) && q < Width(|b|, level + 1)
    && Collision(H, Node(H, a, level, 2 * p), Node(H, a, level, Right(|a|, level, p)),
                 Node(H, b, level, 2 * q), Node(H, b, level, Right(|b|, level, q)))
  }

  ghost predicate Collides(H: Combiner, a: seq<Digest>, b: seq<Digest>) {
    exists level: nat, p: nat, q: nat :: CollidesAt(H, a, b, level, p, q)
  }

  /** Equal nodes have equal children. */
  lemma Descend(H: Combiner, a: seq<Digest>, b: seq<Digest>, level: nat, p: nat, q: nat)
    requires p < Width(|a|, level + 1) && q < Width(|b|, level + 1) && !Collides(H, a, b)
    requires Node(H, a, level + 1, p) == Node(H, b, level + 1, q)
    ensures 2 * p < Width(|a|, level) && 2 * q < Width(|b|, level) && Node(H, a, level, 2 * p) == Node(H, b, level, 2 * q)
    ensures Node(H, a, level, Right(|a|, level, p)) == Node(H, b, level, Right(|b|, level, q))
  {
    hide Width, Node;
    NodeJoined(H, a, level, p);
    NodeJoined(H, b, level, q);
    assert !CollidesAt(H, a, b, level, p, q);
  }

  lemma CompleteChildren(n: nat, level: nat, pos: nat)
    ensures Complete(n, level + 1, pos) <==> Complete(n, level, 2 * pos + 1)
    ensures Complete(n, level + 1, pos) ==> Right(n, level, pos) == 2 * pos + 1
  {
    UpNext(level);
    assert (pos + 1) * Up(level + 1) == (2 * pos + 2) * Up(level);
    if Complete(n, level, 2 * pos + 1) {
      CompleteExists(n, level, 2 * pos + 1);
    }
  }

  lemma LeafComplete(n: nat, pos: nat)
    ensures Complete(n, 0, pos) <==> pos < Width(n, 0)
  {
    hide Width, Up;
    UpNext(0);
    WidthHalves(n, 0);
  }

  /** A complete subtree with the hash of the incomplete one. */
  lemma {:induction false} Twin(H: Combiner, leaves: seq<Digest>, level: nat, p: nat, q: nat)
    requires Complete(|leaves|, level, p) && q < Width(|leaves|, level) && !Complete(|leaves|, level, q)
    requires Node(H, leaves, level, p) == Node(H, leaves, level, q)
    ensures Mutated(H, leaves) || Collides(H, leaves, leaves)
  {
    hide Width, Node, Collides, Complete, Mutated, Repeats;
    if level == 0 {
      LeafComplete(|leaves|, q);
    } else if !Collides(H, leaves, leaves) {
      CompleteExists(|leaves|, level, p);
      Descend(H, leaves, leaves, level - 1, p, q);
      CompleteChildren(|leaves|, level - 1, p);
      CompleteChildren(|leaves|, level - 1, q);
      if 2 * q + 1 < Width(|leaves|, level - 1) {
        Twin(H, leaves, level - 1, 2 * p + 1, 2 * q + 1);
      } else {
        RepeatsHere(H, leaves, level - 1, p);
      }
    }
  }

  lemma RepeatsHere(H: Combiner, leaves: seq<Digest>, level: nat, m: nat)
    requires Complete(|leaves|, level, 2 * m + 1) && Node(H, leaves, level, 2 * m) == Node(H, leaves, level, 2 * m + 1)
    ensures Mutated(H, leaves)
  {
    hide Complete, Node;
    assert Repeats(H, leaves, level, m);
  }

  /** Where the shorter list ends, the longer one repeats a subtree. */
  lemma {:induction false} Ends(H: Combiner, a: seq<Digest>, b: seq<Digest>, level: nat, pos: nat)
    requires |a| < |b| && pos + 1 == Width(|a|, level) && pos < Width(|b|, level) && !Complete(|a|, level, pos)
    requires Node(H, a, level, pos) == Node(H, b, level, pos)
    ensures Mutated(H, b) || Collides(H, a, b) || Collides(H, b, b)
  {
    hide Width, Node, Collides, Complete, Mutated;
    if level == 0 {
      LeafComplete(|a|, pos);
    } else if !Collides(H, a, b) {
      var l := level - 1;
      Descend(H, a, b, l, pos, pos);
      CompleteChildren(|a|, l, pos);
      WidthHalves(|a|, l);
      if 2 * pos + 1 < Width(|a|, l) {
        Wider(|a|, |b|, l);
        Ends(H, a, b, l, 2 * pos + 1);
      } else if 2 * pos + 1 < Width(|b|, l) {
        Doubled(H, b, l, pos);
      } else {
        Wider(|a|, |b|, l);
        Shorter(|a|, |b|, l, 2 * pos);
        Ends(H, a, b, l, 2 * pos);
      }
    }
  }

  lemma Doubled(H: Combiner, leaves: seq<Digest>, level: nat, m: nat)
    requires 2 * m + 1 < Width(|leaves|, level) && Node(H, leaves, level, 2 * m) == Node(H, leaves, level, 2 * m + 1)
    ensures Mutated(H, leaves) || Collides(H, leaves, leaves)
  {
    hide Width, Node, Collides, Complete, Mutated;
    if Complete(|leaves|, level, 2 * m + 1) {
      RepeatsHere(H, leaves, level, m);
    } else {
      BeforeLast(|leaves|, level, 2 * m);
      Twin(H, leaves, level, 2 * m, 2 * m + 1);
    }
  }

  lemma BeforeLast(n: nat, level: nat, pos: nat)
    requires pos + 1 < Width(n, level)
    ensures Complete(n, level, pos)
  {
    FirstLeaf(n, level, pos + 1);
  }

  lemma Wider(m: nat, n: nat, level: nat)
    requires m <= n
    ensures Width(m, level) <= Width(n, level)
  {
    DivMonotone(m + Up(level) - 1, n + Up(level) - 1, Up(level));
  }

  /** The longer list ends within the subtree, so the shorter one does not fill it. */
  lemma Shorter(m: nat, n: nat, level: nat, pos: nat)
    requires m < n && Width(n, level) <= pos + 1
    ensures !Complete(m, level, pos)
  {
    FirstLeaf(n, level, pos + 1);
  }

  /** Equal roots of trees of one shape come from equal leaves. */
  lemma {:induction false} SameNode(H: Combiner, a: seq<Digest>, b: seq<Digest>, top: nat, level: nat, pos: nat)
    requires |a| == |b| && level <= top && pos < Width(|a|, level) && Width(|a|, top) == 1
    requires Node(H, a, top, 0) == Node(H, b, top, 0) && !Collides(H, a, b)
    ensures Node(H, a, level, pos) == Node(H, b, level, pos)
    decreases top - level
  {
    hide Width, Node, Collides;
    if level < top {
      WidthHalves(|a|, level);
      SameNode(H, a, b, top, level + 1, pos / 2);
      Descend(H, a, b, level, pos / 2, pos / 2);
    }
  }

  lemma SameLeaves(H: Combiner, a: seq<Digest>, b: seq<Digest>)
    requires |a| == |b| > 0 && Root(H, a) == Root(H, b) && !Collides(H, a, b)
    ensures a == b
  {
    var h := HeightFrom(|a|, 0);
    OneRoot(|a|);
    forall i | 0 <= i < |a|
      ensures a[i] == b[i]
    {
      WidthHalves(|a|, 0);
      NodeLeaf(H, a, i);
      NodeLeaf(H, b, i);
      hide Width, Node, Collides;
      SameNode(H, a, b, h, 0, i);
    }
  }

  /**
   * Different leaves with the same root, in trees of the same height, are always noticed: the longer list is flagged,
   * or two nodes of these trees collide.
   */
  lemma ChangesNoticed(H: Combiner, a: seq<Digest>, b: seq<Digest>)
    requires 0 < |a| <= |b| && a != b && HeightFrom(|a|, 0) == HeightFrom(|b|, 0) && Root(H, a) == Root(H, b)
    ensures (|a| < |b| && Mutated(H, b)) || Collides(H, a, b) || Collides(H, b, b)
  {
    var h := HeightFrom(|a|, 0);
    OneRoot(|a|);
    OneRoot(|b|);
    assert Node(H, a, h, 0) == Node(H, b, h, 0);
    hide Width, Node, Collides, Complete, Mutated, Root;
    if |a| == |b| {
      if !Collides(H, a, b) {
        SameLeaves(H, a, b);
      }
    } else {
      Shorter(|a|, |b|, h, 0);
      Ends(H, a, b, h, 0);
    }
  }

  /** A leaf is as good as the pair it is the hash of: between trees of different heights nothing is noticed. */
  lemma HeightExample(H: Combiner, x: Digest, y: Digest)
    requires x != y
    ensures Root(H, [x, y]) == Root(H, [H(x, y)]) && !Mutated(H, [x, y]) && !Mutated(H, [H(x, y)])
  {
    var a, b := [x, y], [H(x, y)];
    WidthHalves(2, 0);
    WidthHalves(1, 0);
    OneRoot(2);
    NodeLeaf(H, a, 0);
    NodeLeaf(H, a, 1);
    NodeLeaf(H, b, 0);
    NodePair(H, a, 0, 0);
    Top(H, a, 1);
    Top(H, b, 0);
    hide Width, Node, Root, CalcHash;
    forall l: nat, m: nat
      ensures !Repeats(H, a, l, m) && !Repeats(H, b, l, m)
    {
      OnlyPair(2, l, m);
      OnlyPair(1, l, m);
    }
  }

  lemma OnlyPair(n: nat, l: nat, m: nat)
    requires n <= 2
    ensures Complete(n, l, 2 * m + 1) ==> n == 2 && l == 0 && m == 0
  {
    if Complete(n, l, 2 * m + 1) {
      MulMonotone(2, 2 * m + 2, Up(l));
    }
  }

  // ----- repeated leaves ----------------------------------------------------------------------------------------

  /** The leaves under a complete subtree. */
  function Under(leaves: seq<Digest>, level: nat, pos: nat): (under: seq<Digest>)
    requires (pos + 1) * Up(level) <= |leaves|
    ensures |under| == Up(level)
  {
    assert (pos + 1) * Up(level) == pos * Up(level) + Up(level);
    leaves[pos * Up(level)..(pos + 1) * Up(level)]
  }

  /** Complete subtrees over the same leaves have the same hash. */
  lemma {:induction false} SameSubtree(H: Combiner, a: seq<Digest>, b: seq<Digest>, level: nat, p: nat, q: nat)
    requires Complete(|a|, level, p) && Complete(|b|, level, q) && Under(a, level, p) == Under(b, level, q)
    ensures Node(H, a, level, p) == Node(H, b, level, q)
  {
    if level == 0 {
      NodeLeaf(H, a, p);
      NodeLeaf(H, b, q);
      assert Under(a, 0, p)[0] == a[p] && Under(b, 0, q)[0] == b[q];
    } else {
      hide Up, Node, Width, Under;
      var l := level - 1;
      UnderHalves(a, l, p);
      UnderHalves(b, l, q);
      SamePrefix(Under(a, l, 2 * p), Under(a, l, 2 * p + 1), Under(b, l, 2 * q), Under(b, l, 2 * q + 1));
      SameSubtree(H, a, b, l, 2 * p, 2 * q);
      SameSubtree(H, a, b, l, 2 * p + 1, 2 * q + 1);
      NodePair(H, a, l, p);
      NodePair(H, b, l, q);
    }
  }

  lemma SamePrefix(a: seq<Digest>, b: seq<Digest>, c: seq<Digest>, d: seq<Digest>)
    requires |a| == |c| && a + b == c + d
    ensures a == c && b == d
  {
    assert a == (a + b)[..|a|] && b == (a + b)[|a|..] && c == (c + d)[..|c|] && d == (c + d)[|c|..];
  }

  lemma UnderHalves(leaves: seq<Digest>, level: nat, pos: nat)
    requires Complete(|leaves|, level + 1, pos)
    ensures Complete(|leaves|, level, 2 * pos) && Complete(|leaves|, level, 2 * pos + 1) && 2 * pos + 1 < Width(|leaves|, level)
    ensures Under(leaves, level + 1, pos) == Under(leaves, level, 2 * pos) + Under(leaves, level, 2 * pos + 1)
  {
    hide Width, Up;
    CompleteHalves(|leaves|, level, pos);
    UpNext(level);
    var i, j, k := 2 * pos * Up(level), (2 * pos + 1) * Up(level), (2 * pos + 2) * Up(level);
    assert pos * Up(level + 1) == i && (pos + 1) * Up(level + 1) == k;
    assert j == i + Up(level) && k == j + Up(level);
    hide *;
    assert leaves[i..k] == leaves[i..j] + leaves[j..k];
  }

  lemma CompleteHalves(n: nat, level: nat, pos: nat)
    requires Complete(n, level + 1, pos)
    ensures Complete(n, level, 2 * pos) && Complete(n, level, 2 * pos + 1) && 2 * pos + 1 < Width(n, level)
  {
    CompleteChildren(n, level, pos);
    CompleteExists(n, level, 2 * pos + 1);
    MulMonotone(2 * pos + 1, 2 * pos + 2, Up(level));
  }

  /** The last complete subtree of a list once more. */
  function Repeated(leaves: seq<Digest>, level: nat): seq<Digest>
    requires Up(level) <= |leaves|
  {
    leaves + leaves[|leaves| - Up(level)..]
  }

  /** The level is where the list is an odd number of complete subtrees, more than one. */
  ghost predicate OddAt(n: nat, level: nat) {
    n % Up(level) == 0 && n / Up(level) % 2 == 1 && n / Up(level) > 1
  }

  lemma OddSize(n: nat, level: nat)
    requires OddAt(n, level)
    ensures n > 0 && Up(level) <= n && n / Up(level) * Up(level) == n && Width(n, level) == n / Up(level)
    ensures Width(n + Up(level), level) == n / Up(level) + 1
    ensures Complete(n, level, n / Up(level) - 1) && Complete(n + Up(level), level, n / Up(level))
  {
    var u, w := Up(level), n / Up(level);
    assert n == u * w;
    DivModUnique(n + u - 1, u, w, u - 1);
    DivModUnique(n + u + u - 1, u, w + 1, u - 1);
  }

  /** At the level of the repeated subtree the longer list has the nodes of the shorter and the last of them again. */
  lemma RepeatedNodes(H: Combiner, leaves: seq<Digest>, level: nat, pos: nat)
    requires OddAt(|leaves|, level) && Up(level) <= |leaves| && pos <= |leaves| / Up(level)
    ensures Node(H, Repeated(leaves, level), level, pos) ==
            Node(H, leaves, level, if pos == |leaves| / Up(level) then pos - 1 else pos)
  {
    hide Node, Width, Up;
    RepeatedUnder(leaves, level, pos);
    SameSubtree(H, Repeated(leaves, level), leaves, level, pos, if pos == |leaves| / Up(level) then pos - 1 else pos);
  }

  lemma RepeatedUnder(leaves: seq<Digest>, level: nat, pos: nat)
    requires OddAt(|leaves|, level) && Up(level) <= |leaves| && pos <= |leaves| / Up(level)
    ensures var k := if pos == |leaves| / Up(level) then pos - 1 else pos;
      && Complete(|leaves|, level, k) && Complete(|Repeated(leaves, level)|, level, pos)
      && Under(Repeated(leaves, level), level, pos) == Under(leaves, level, k)
  {
    hide Width, Up;
    var n, u, w, b := |leaves|, Up(level), |leaves| / Up(level), Repeated(leaves, level);
    OddSize(n, level);
    if pos == w {
      assert (w - 1) * u == n - u && (w + 1) * u == n + u;
      assert b[n..n + u] == leaves[n - u..n];
    } else {
      MulMonotone(pos + 1, w, u);
      var i, j := pos * u, (pos + 1) * u;
      assert 0 <= i <= j by {
        MulMonotone(0, pos, u);
        MulMonotone(pos, pos + 1, u);
      }
      assert b[i..j] == leaves[i..j];
    }
  }

  /** From the next level on the two trees agree. */
  lemma {:induction false} RepeatedAbove(H: Combiner, leaves: seq<Digest>, level: nat, above: nat, pos: nat)
    requires OddAt(|leaves|, level) && Up(level) <= |leaves| && level < above && pos < Width(|leaves|, above)
    ensures Width(|leaves| + Up(level), above) == Width(|leaves|, above)
    ensures Node(H, Repeated(leaves, level), above, pos) == Node(H, leaves, above, pos)
    decreases above
  {
    hide Node, Width, Up;
    var n, w, b, l := |leaves|, |leaves| / Up(level), Repeated(leaves, level), above - 1;
    WidthHalves(n, l);
    WidthHalves(n + Up(level), l);
    if l == level {
      OddSize(n, level);
      RepeatedNodes(H, leaves, level, 2 * pos);
      RepeatedNodes(H, leaves, level, 2 * pos + 1);
    } else {
      RepeatedAbove(H, leaves, level, l, 2 * pos);
      RepeatedAbove(H, leaves, level, l, Right(n, l, pos));
    }
    NodeJoined(H, leaves, l, pos);
    NodeJoined(H, b, l, pos);
  }

  /** The example of the source at every size: repeating the last subtree keeps the root, and is flagged. */
  lemma RepetitionFlagged(H: Combiner, leaves: seq<Digest>, level: nat)
    requires OddAt(|leaves|, level) && Up(level) <= |leaves|
    ensures var b := Repeated(leaves, level); b != leaves && b != [] && leaves != [] && Root(H, b) == Root(H, leaves) && Mutated(H, b)
  {
    hide Node, Width, Up, Root, HeightFrom, Complete, Mutated;
    var n, w, b := |leaves|, |leaves| / Up(level), Repeated(leaves, level);
    OddSize(n, level);
    RepeatedNodes(H, leaves, level, w - 1);
    RepeatedNodes(H, leaves, level, w);
    RepeatsHere(H, b, level, w / 2);
    SameTop(H, leaves, level);
  }

  lemma SameTop(H: Combiner, leaves: seq<Digest>, level: nat)
    requires OddAt(|leaves|, level) && Up(level) <= |leaves|
    ensures leaves != [] && Root(H, Repeated(leaves, level)) == Root(H, leaves)
  {
    hide Node, Up, Width;
    var n, b, h := |leaves|, Repeated(leaves, level), HeightFrom(|leaves|, 0);
    OddSize(n, level);
    OneRoot(n);
    AboveOdd(n, level, h);
    RepeatedAbove(H, leaves, level, h, 0);
    WidthHalves(n, h - 1);
    WidthHalves(n + Up(level), h - 1);
    assert Width(|b|, h - 1) > 1 by {
      Wider(n, |b|, h - 1);
    }
    Top(H, b, h);
    Top(H, leaves, h);
  }

  lemma AboveOdd(n: nat, level: nat, h: nat)
    requires OddAt(n, level) && Width(n, h) == 1
    ensures level < h
  {
    OddSize(n, level);
    if h <= level {
      Narrower(n, h, level);
    }
  }
}
