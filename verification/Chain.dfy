/**
 * The block tree with its skip list, the active chain and block locators (src/chain.h, src/chain.cpp).
 */
module Chain {
  import opened Basics
  import opened Power
  import opened SkipList

  // ----- the block tree ----------------------------------------------------------------------------------

  class BlockIndex {
    const pprev: BlockIndex?
    const nHeight: nat
    const hash: nat
    var pskip: BlockIndex?

    /** A block at the end of a branch, or a genesis block. */
    constructor (pprev: BlockIndex?, hash: nat)
      requires pprev != null ==> Linked(pprev) && SkipsOk(pprev)
      ensures this.pprev == pprev && this.hash == hash && Linked(this) && SkipsOk(this)
      ensures (pprev != null ==> SkipsSet(pprev)) ==> SkipsSet(this)
      ensures pprev != null ==> pskip == Path(pprev)[GetSkipHeight(nHeight)]
    {
      this.pprev, this.hash, this.pskip := pprev, hash, null;
      nHeight := if pprev == null then 0 else pprev.nHeight + 1;
      new;
      BuildSkip();
    }

    /** BuildSkip */
    method BuildSkip()
      requires Linked(this) && (pprev != null ==> SkipsOk(pprev)) && pskip == null
      modifies this
      ensures SkipsOk(this) && (old(pprev != null ==> SkipsSet(pprev)) ==> SkipsSet(this))
      ensures pprev != null ==> pskip == Path(pprev)[GetSkipHeight(nHeight)]
    {
      hide GetSkipHeight, Path, SkipsOk, SkipsSet, Few, Steps;
      if pprev == null {
        SkipsOkGenesis(this);
      } else {
        SkipsBack(nHeight);
        NotOwnAncestor(this);
        var p, steps := pprev.GetAncestor(GetSkipHeight(nHeight), pprev);
        pskip := p;
        SkipsOkNext(this);
        if SkipsSet(pprev) {
          SkipsSetNext(this);
        }
      }
    }

    /** GetAncestor: the block a plain walk along pprev reaches, null for heights outside the branch. */
    method GetAncestor(height: int, ghost top: BlockIndex) returns (r: BlockIndex?, ghost steps: nat)
      requires Linked(top) && SkipsOk(top) && OnPath(top, this) && Linked(this)
      ensures SkipsOk(top) && SkipsSet(top) == old(SkipsSet(top))
      ensures SkipsSet(this) ==> steps == if 0 <= height <= nHeight then Steps(nHeight, height) else 0
      ensures SkipsSet(this) ==> Few(nHeight, steps)
      ensures if 0 <= height <= nHeight then r == Path(this)[height] else r == null
    {
      hide Path, GetSkipHeight, Steps, Few, SkipsSet, SkipsOk;
      FewNone(nHeight);
      if height > nHeight || height < 0 {
        return null, 0;
      }
      Below(top, this);
      steps := 0;
      var pindexWalk: BlockIndex := this;
      var heightWalk: int := nHeight;
      while heightWalk > height
        invariant height <= heightWalk <= nHeight && OnPath(this, pindexWalk) && pindexWalk.nHeight == heightWalk
        invariant SkipsOk(top) && SkipsSet(top) == old(SkipsSet(top))
        invariant SkipsSet(this) ==> Steps(nHeight, height) == steps + Steps(heightWalk, height)
      {
        StepsGo(heightWalk, height);
        SkipsBack(heightWalk);
        Below(this, pindexWalk);
        if SkipsSet(this) {
          SkipSet(this, pindexWalk);
        }
        SkipsOkAt(top, heightWalk);
        var heightSkip := GetSkipHeight(heightWalk);
        var heightSkipPrev := GetSkipHeight(heightWalk - 1);
        if pindexWalk.pskip != null &&
           (heightSkip == height || (heightSkip > height && !(heightSkipPrev < heightSkip - 2 && heightSkipPrev >= height)))
        {
          pindexWalk := pindexWalk.pskip;
          heightWalk := heightSkip;
        } else {
          assert pindexWalk.pprev != null;
          pindexWalk := pindexWalk.pprev;
          heightWalk := heightWalk - 1;
        }
        steps := steps + 1;
      }
      StepsGo(heightWalk, height);
      FewSteps(nHeight, height);
      return pindexWalk, steps;
    }
  }

  /** Heights count the blocks below. */
  ghost predicate Linked(b: BlockIndex)
    decreases b.nHeight
  {
    if b.nHeight == 0 then b.pprev == null
    else b.pprev != null && b.pprev.nHeight == b.nHeight - 1 && Linked(b.pprev)
  }

  /** The branch of a block from its genesis block up: the walk along pprev. */
  ghost function Path(b: BlockIndex): (p: seq<BlockIndex>)
    requires Linked(b)
    ensures |p| == b.nHeight + 1 && p[b.nHeight] == b
    decreases b.nHeight
  {
    (if b.pprev == null then [] else Path(b.pprev)) + [b]
  }

  ghost predicate OnPath(b: BlockIndex, x: BlockIndex)
    requires Linked(b)
  {
    x.nHeight <= b.nHeight && Path(b)[x.nHeight] == x
  }

  /** Every skip pointer of the branch that is set points to the block at its skip height. */
  ghost predicate SkipsOk(b: BlockIndex)
    requires Linked(b)
    reads Path(b)
  {
    forall i :: 0 <= i <= b.nHeight ==> SkipOk(Path(b)[i])
  }

  ghost predicate SkipOk(x: BlockIndex)
    reads x
  {
    Linked(x) && (x.pskip != null ==> 0 <= GetSkipHeight(x.nHeight) <= x.nHeight && x.pskip == Path(x)[GetSkipHeight(x.nHeight)])
  }

  /** Every skip pointer of the branch is set, as BuildSkip leaves them. */
  ghost predicate SkipsSet(b: BlockIndex)
    requires Linked(b)
    reads Path(b)
  {
    forall i :: 0 < i <= b.nHeight ==> Path(b)[i].pskip != null
  }

  lemma SkipsOkAt(b: BlockIndex, i: nat)
    requires Linked(b) && SkipsOk(b) && i <= b.nHeight
    ensures SkipOk(Path(b)[i])
  {}

  lemma SkipSet(b: BlockIndex, x: BlockIndex)
    requires Linked(b) && SkipsSet(b) && OnPath(b, x) && x.nHeight > 0
    ensures x.pskip != null
  {}

  lemma SkipsOkGenesis(b: BlockIndex)
    requires Linked(b) && b.pprev == null && b.pskip == null
    ensures SkipsOk(b) && SkipsSet(b)
  {}

  /** Extending a branch by a block with a right skip pointer. */
  lemma SkipsOkNext(b: BlockIndex)
    requires Linked(b) && b.pprev != null && SkipsOk(b.pprev) && 0 <= GetSkipHeight(b.nHeight) < b.nHeight
    requires b.pskip == Path(b.pprev)[GetSkipHeight(b.nHeight)]
    ensures SkipsOk(b)
  {
    hide GetSkipHeight;
    forall i | 0 <= i <= b.nHeight
      ensures SkipOk(Path(b)[i])
    {
      assert i < b.nHeight ==> SkipOk(Path(b.pprev)[i]);
    }
  }

  /** Extending a branch by a block with its skip pointer set. */
  lemma SkipsSetNext(b: BlockIndex)
    requires Linked(b) && b.pprev != null && SkipsSet(b.pprev) && b.pskip != null
    ensures SkipsSet(b)
  {
    forall i | 0 < i <= b.nHeight
      ensures Path(b)[i].pskip != null
    {
      assert i < b.nHeight ==> Path(b)[i] == Path(b.pprev)[i];
    }
  }

  /** The branch of a block on a branch is the lower part of that branch. */
  lemma {:induction false} PathOfPath(b: BlockIndex, i: nat)
    requires Linked(b) && i <= b.nHeight
    ensures var x := Path(b)[i]; Linked(x) && x.nHeight == i && Path(x) == Path(b)[..i + 1]
    decreases b.nHeight
  {
    if i < b.nHeight {
      PathOfPath(b.pprev, i);
    } else {
      assert Path(b)[..i + 1] == Path(b);
    }
  }

  /** What lies below a block of a branch. */
  lemma Below(b: BlockIndex, x: BlockIndex)
    requires Linked(b) && OnPath(b, x)
    ensures Linked(x) && x in Path(b)
    ensures forall j :: 0 <= j <= x.nHeight ==> OnPath(b, Path(x)[j]) && Path(x)[j].nHeight == j && Path(x)[j] == Path(b)[j]
    ensures x.pprev != null <==> x.nHeight > 0
    ensures x.pprev != null ==> x.pprev == Path(x)[x.nHeight - 1]
  {
    PathOfPath(b, x.nHeight);
    forall j | 0 <= j <= x.nHeight
      ensures OnPath(b, Path(x)[j]) && Path(x)[j].nHeight == j && Path(x)[j] == Path(b)[j]
    {
      PathOfPath(b, j);
    }
  }

  lemma PathHeights(b: BlockIndex)
    requires Linked(b)
    ensures forall j :: 0 <= j <= b.nHeight ==> Path(b)[j].nHeight == j
  {
    Below(b, b);
  }

  lemma Parent(b: BlockIndex, x: BlockIndex)
    requires Linked(b) && OnPath(b, x)
    ensures x.pprev == null <==> x.nHeight == 0
    ensures x.pprev != null ==> OnPath(b, x.pprev) && x.pprev.nHeight == x.nHeight - 1
  {
    Below(b, x);
  }

  lemma NotOwnAncestor(b: BlockIndex)
    requires Linked(b) && b.pprev != null
    ensures b !in Path(b.pprev)
  {
    forall i | 0 <= i < |Path(b.pprev)|
      ensures Path(b.pprev)[i] != b
    {
      PathOfPath(b.pprev, i);
    }
  }

  // ----- locators -----------------------------------------------------------------------------------------

  /** The heights listed from height h on, with the current step and n heights listed before. */
  ghost function Heights(h: nat, step: nat, n: nat): (r: seq<nat>)
    requires step > 0
    ensures |r| > 0 && r[0] == h
    decreases h
  {
    [h] + if h == 0 then [] else Heights(Max(h - step, 0), if n + 1 > 10 then 2 * step else step, n + 1)
  }

  ghost predicate Descending(r: seq<nat>) {
    forall i, j :: 0 <= i < j < |r| ==> r[i] > r[j]
  }

  lemma DescendingFrom(h: nat, r: seq<nat>)
    requires Descending(r) && (r != [] ==> h > r[0])
    ensures Descending([h] + r)
  {
    forall i, j | 0 <= i < j < |r| + 1
      ensures ([h] + r)[i] > ([h] + r)[j]
    {
      assert j > 1 ==> r[0] > r[j - 1];
    }
  }

  /** A locator goes strictly down to the genesis block. */
  lemma {:induction false} HeightsDescend(h: nat, step: nat, n: nat)
    requires step > 0
    ensures var r := Heights(h, step, n); r[|r| - 1] == 0 && Descending(r)
    decreases h
  {
    hide Descending;
    if h > 0 {
      var step' := if n + 1 > 10 then 2 * step else step;
      HeightsDescend(Max(h - step, 0), step', n + 1);
      DescendingFrom(h, Heights(Max(h - step, 0), step', n + 1));
    } else {
      DescendingFrom(h, []);
    }
  }

  /** How far the i-th entry of a locator lies below the first: one by one for ten entries, then at distances that double. */
  ghost function Distance(i: nat): nat {
    if i < 10 then i else 9 + Pow(2, i - 10)
  }

  lemma DistanceNext(i: nat)
    ensures Distance(i + 1) - Distance(i) == if i <= 10 then 1 else Pow(2, i - 10)
  {
    assert Pow(2, 0) == 1 && Pow(2, 1) == 2;
  }

  lemma HeightsGo(h: nat, step: nat, n: nat)
    requires step > 0
    ensures Heights(h, step, n) == [h] + if h == 0 then [] else Heights(Max(h - step, 0), if n + 1 > 10 then 2 * step else step, n + 1)
  {}

  /** The step doubles once ten entries are there. */
  lemma StepNext(n: nat)
    ensures Distance(n + 2) - Distance(n + 1) == (if n + 1 > 10 then 2 else 1) * (Distance(n + 1) - Distance(n))
  {
    DistanceNext(n);
    DistanceNext(n + 1);
  }

  /** The i-th height listed, as long as the genesis block is not reached before. */
  lemma {:induction false} HeightAt(h: nat, step: nat, n: nat, i: nat)
    requires step > 0 && step == Distance(n + 1) - Distance(n) && i < |Heights(h, step, n)|
    ensures Heights(h, step, n)[i] == Max(h - (Distance(n + i) - Distance(n)), 0)
    decreases i
  {
    hide Distance, Heights, Pow;
    var next, step' := Max(h - step, 0), if n + 1 > 10 then 2 * step else step;
    HeightsGo(h, step, n);
    if i > 0 {
      StepNext(n);
      HeightAt(next, step', n + 1, i - 1);
      Farther(n + 1, n + i);
    }
  }

  lemma {:induction false} Farther(i: nat, j: nat)
    requires i <= j
    ensures Distance(i) <= Distance(j)
    decreases j - i
  {
    hide Distance;
    if i < j {
      DistanceNext(j - 1);
      Farther(i, j - 1);
    }
  }

  /** The heights of a locator from height h: h, h - 1, ..., h - 9, and then h - 9 - 2^k for k = 0, 1, ..., ending with 0. */
  lemma LocatorHeights(h: nat, i: nat)
    requires i < |Heights(h, 1, 0)|
    ensures Heights(h, 1, 0)[i] == if i < 10 then Max(h - i, 0) else Max(h - 9 - Pow(2, i - 10), 0)
    ensures Heights(h, 1, 0)[i] == 0 <==> i == |Heights(h, 1, 0)| - 1
  {
    hide Pow, Heights;
    DistanceNext(0);
    HeightAt(h, 1, 0, i);
    HeightsDescend(h, 1, 0);
  }

  lemma OneStepLess(h: nat, step: nat, p: nat)
    requires p > 0 && h <= step * (2 * p - 1)
    ensures 0 <= 2 * step * (p - 1) && h - step <= 2 * step * (p - 1)
  {
    assert step * (2 * p - 1) == 2 * step * (p - 1) + step;
    MulMonotone(0, p - 1, 2 * step);
  }

  /** Doubling steps: m more entries reach down s + 2s + ... */
  lemma {:induction false} DoublingHeights(h: nat, step: nat, n: nat, m: nat)
    requires step > 0 && n >= 10 && h <= step * (Pow(2, m) - 1)
    ensures |Heights(h, step, n)| <= 1 + m
    decreases m
  {
    if h > 0 {
      if m > 0 {
        PowPositive(2, m - 1);
        OneStepLess(h, step, Pow(2, m - 1));
        DoublingHeights(Max(h - step, 0), 2 * step, n + 1, m - 1);
      }
    }
  }

  lemma {:induction false} SingleHeights(h: nat, n: nat, m: nat)
    requires n <= 10 && h - (10 - n) <= Pow(2, m) - 1
    ensures |Heights(h, 1, n)| <= (10 - n) + 1 + m
    decreases 10 - n
  {
    if n == 10 {
      DoublingHeights(h, 1, n, m);
    } else if h > 0 {
      SingleHeights(h - 1, n + 1, m);
    }
  }

  /** A locator from height h has at most 11 plus the binary logarithm of h entries, rounded up. */
  lemma LocatorSize(h: nat, log: nat)
    requires h <= Pow(2, log)
    ensures |Heights(h, 1, 0)| <= 11 + log
  {
    SingleHeights(h, 0, log);
  }

  // ----- the active chain -----------------------------------------------------------------------------------

  class ActiveChain {
    var vChain: seq<BlockIndex?>

    /** The chain is the branch of its tip. */
    ghost predicate Valid()
      reads this
    {
      vChain != [] ==> IsPath(vChain, vChain[|vChain| - 1])
    }

    function Tip(): BlockIndex?
      reads this
    {
      if vChain == [] then null else vChain[|vChain| - 1]
    }

    function At(nHeight: int): BlockIndex?
      reads this
    {
      if 0 <= nHeight < |vChain| then vChain[nHeight] else null
    }

    predicate Contains(pindex: BlockIndex)
      reads this
    {
      At(pindex.nHeight) == pindex
    }

    /** In a valid chain a block is contained exactly if it is on the branch of the tip, and then so is its own branch. */
    lemma ContainsIff(x: BlockIndex)
      requires Valid() && Linked(x)
      ensures Contains(x) <==> exists i :: 0 <= i < |vChain| && vChain[i] == x
      ensures Contains(x) ==> forall j :: 0 <= j <= x.nHeight ==> vChain[j] == Path(x)[j]
    {
      if vChain != [] {
        var t: BlockIndex := vChain[|vChain| - 1];
        forall i | 0 <= i < |vChain|
          ensures vChain[i].nHeight == i
        {
          PathOfPath(t, i);
        }
        if Contains(x) {
          PathOfPath(t, x.nHeight);
        }
      }
    }

    /** SetTip: the incremental update gives the whole branch of the new tip. */
    method SetTip(pindex: BlockIndex?)
      requires Valid() && (pindex != null ==> Linked(pindex))
      modifies this
      ensures Valid() && vChain == if pindex == null then [] else Path(pindex)
    {
      if pindex == null {
        vChain := [];
        return;
      }
      hide Path, Rebuilt, IsPath, OnPath, Resized;
      ghost var before := vChain;
      var n := pindex.nHeight + 1;
      vChain := Resized(vChain, n);
      ResizeStart(before, Path(pindex));
      SelfOnPath(pindex);
      var walk: BlockIndex? := pindex;
      while walk != null && vChain[walk.nHeight] != walk
        invariant |vChain| == n && (walk != null ==> OnPath(pindex, walk) && walk.nHeight < n)
        invariant Rebuilt(vChain, before, Path(pindex), if walk == null then 0 else walk.nHeight + 1)
        decreases if walk == null then 0 else walk.nHeight + 1
      {
        Parent(pindex, walk);
        RebuiltStep(vChain, before, pindex, walk);
        vChain := vChain[walk.nHeight := walk];
        walk := walk.pprev;
      }
      RebuiltAll(vChain, before, pindex, walk);
    }

    /** The chain contains no block of the branch from the given height on. */
    ghost predicate NoneFrom(top: BlockIndex, height: int)
      requires Linked(top)
      reads this
    {
      forall j :: 0 <= j <= top.nHeight && height <= j ==> !Contains(Path(top)[j])
    }

    lemma NoneHigh(top: BlockIndex)
      requires Linked(top)
      ensures NoneFrom(top, top.nHeight + 1) && NoneFrom(top, |vChain|)
    {
      PathHeights(top);
    }

    lemma NoneLower(top: BlockIndex, x: BlockIndex)
      requires Linked(top) && OnPath(top, x) && !Contains(x) && NoneFrom(top, x.nHeight + 1)
      ensures NoneFrom(top, x.nHeight)
    {}

    /** FindFork: the highest block of the branch of pindex that the chain contains. */
    method FindFork(pindex: BlockIndex?) returns (fork: BlockIndex?)
      requires Valid() && (pindex != null ==> Linked(pindex) && SkipsOk(pindex))
      ensures pindex == null ==> fork == null
      ensures fork != null ==> pindex != null && OnPath(pindex, fork) && Contains(fork)
      ensures pindex != null ==> NoneFrom(pindex, if fork == null then 0 else fork.nHeight + 1)
    {
      if pindex == null {
        return null;
      }
      hide Path, SkipsOk, Linked, NoneFrom;
      NoneHigh(pindex);
      fork := pindex;
      if pindex.nHeight > |vChain| - 1 {
        ghost var steps;
        fork, steps := pindex.GetAncestor(|vChain| - 1, pindex);
        PathHeights(pindex);
      }
      while fork != null && !Contains(fork)
        invariant fork != null ==> OnPath(pindex, fork)
        invariant NoneFrom(pindex, if fork == null then 0 else fork.nHeight + 1)
        decreases if fork == null then 0 else fork.nHeight + 1
      {
        Parent(pindex, fork);
        NoneLower(pindex, fork);
        fork := fork.pprev;
      }
    }

    /** GetLocator: the hashes of the branch at the listed heights. */
    method GetLocator(start: BlockIndex?) returns (vHave: seq<nat>)
      requires Valid() && (vChain != [] ==> SkipsOk(Tip()))
      requires start != null ==> Linked(start) && SkipsOk(start)
      ensures var top := if start == null then Tip() else start;
              if top == null then vHave == [] else
              var r := Heights(top.nHeight, 1, 0);
              |vHave| == |r| && forall i :: 0 <= i < |r| ==> 0 <= r[i] <= top.nHeight && vHave[i] == Path(top)[r[i]].hash
    {
      hide Path, Heights, SkipsOk;
      var nStep := 1;
      vHave := [];
      var pindex := if start == null then Tip() else start;
      if pindex == null {
        return;
      }
      ghost var top: BlockIndex := pindex;
      ghost var r := Heights(top.nHeight, 1, 0);
      var walk: BlockIndex := pindex;
      while true
        invariant Linked(top) && SkipsOk(top) && OnPath(top, walk) && nStep > 0
        invariant |vHave| < |r| && r[|vHave|..] == Heights(walk.nHeight, nStep, |vHave|)
        invariant forall i :: 0 <= i < |vHave| ==> 0 <= r[i] <= top.nHeight && vHave[i] == Path(top)[r[i]].hash
        decreases walk.nHeight
      {
        HeightsNext(r, walk.nHeight, nStep, |vHave|);
        vHave := vHave + [walk.hash];
        if walk.nHeight == 0 {
          break;
        }
        walk := StepBack(top, walk, Max(walk.nHeight - nStep, 0));
        if |vHave| > 10 {
          nStep := nStep * 2;
        }
      }
    }

    /** The block of the same branch at a lower height, by index where the chain has it, else by the skip list. */
    method StepBack(ghost top: BlockIndex, pindex: BlockIndex, nHeight: nat) returns (r: BlockIndex)
      requires Valid() && Linked(top) && SkipsOk(top) && OnPath(top, pindex) && nHeight <= pindex.nHeight
      ensures SkipsOk(top) && OnPath(top, r) && r.nHeight == nHeight
    {
      Below(top, pindex);
      if Contains(pindex) {
        ContainsIff(pindex);
        r := At(nHeight);
      } else {
        ghost var steps;
        r, steps := pindex.GetAncestor(nHeight, top);
      }
    }
  }

  lemma HeightsNext(r: seq<nat>, h: nat, step: nat, n: nat)
    requires step > 0 && n < |r| && r[n..] == Heights(h, step, n)
    ensures r[n] == h
    ensures if h == 0 then n + 1 == |r| else
            n + 1 < |r| && r[n + 1..] == Heights(Max(h - step, 0), if n + 1 > 10 then 2 * step else step, n + 1)
  {
    assert r[n] == r[n..][0];
    if h > 0 {
      assert r[n + 1..] == r[n..][1..];
    }
  }

  ghost predicate IsPath(p: seq<BlockIndex?>, t: BlockIndex?) {
    t != null && Linked(t) && p == Path(t)
  }

  /** From height k on the entries are those of the new branch, below they are the old ones. */
  ghost predicate Rebuilt(v: seq<BlockIndex?>, before: seq<BlockIndex?>, p: seq<BlockIndex>, k: nat) {
    && |v| == |p| && (forall j :: k <= j < |p| ==> v[j] == p[j])
    && (forall j :: 0 <= j < k && j < |v| ==> v[j] == if j < |before| then before[j] else null)
  }

  /** vector::resize: cut off, or fill up with null. */
  function Resized(v: seq<BlockIndex?>, n: nat): (r: seq<BlockIndex?>)
    ensures |r| == n
  {
    if n <= |v| then v[..n] else v + seq(n - |v|, i => null)
  }

  lemma ResizeStart(before: seq<BlockIndex?>, p: seq<BlockIndex>)
    ensures Rebuilt(Resized(before, |p|), before, p, |p|)
  {}

  lemma SelfOnPath(b: BlockIndex)
    requires Linked(b)
    ensures OnPath(b, b)
  {}

  lemma RebuiltStep(v: seq<BlockIndex?>, before: seq<BlockIndex?>, b: BlockIndex, x: BlockIndex)
    requires Linked(b) && OnPath(b, x) && Rebuilt(v, before, Path(b), x.nHeight + 1)
    ensures x.nHeight < |v| && Rebuilt(v[x.nHeight := x], before, Path(b), x.nHeight)
  {
    hide Path;
  }

  lemma RebuiltAll(v: seq<BlockIndex?>, before: seq<BlockIndex?>, b: BlockIndex, x: BlockIndex?)
    requires before != [] ==> IsPath(before, before[|before| - 1])
    requires Linked(b) && Rebuilt(v, before, Path(b), if x == null then 0 else x.nHeight + 1)
    requires x != null ==> OnPath(b, x) && x.nHeight < |v| && v[x.nHeight] == x
    ensures v == Path(b) && IsPath(v, v[|v| - 1])
  {
    hide Path;
    if x != null {
      Lower(b, x);
      SharedBelow(before, x);
    }
  }

  lemma Lower(b: BlockIndex, x: BlockIndex)
    requires Linked(b) && OnPath(b, x)
    ensures Linked(x) && forall j :: 0 <= j <= x.nHeight ==> Path(x)[j] == Path(b)[j]
  {
    Below(b, x);
  }

  /** A chain that holds a block at its height holds the branch of the block below. */
  lemma SharedBelow(chain: seq<BlockIndex?>, x: BlockIndex)
    requires chain != [] ==> IsPath(chain, chain[|chain| - 1])
    requires Linked(x) && x.nHeight < |chain| && chain[x.nHeight] == x
    ensures forall j :: 0 <= j <= x.nHeight ==> chain[j] == Path(x)[j]
  {
    PathOfPath(chain[|chain| - 1], x.nHeight);
  }

  /** LastCommonAncestor: the highest block of both branches; null only for branches without one. */
  method LastCommonAncestor(a: BlockIndex, b: BlockIndex) returns (r: BlockIndex?)
    requires Linked(a) && SkipsOk(a) && Linked(b) && SkipsOk(b)
    ensures r != null ==> OnPath(a, r) && OnPath(b, r)
    ensures forall i :: (if r == null then 0 else r.nHeight + 1) <= i <= a.nHeight && i <= b.nHeight ==> Path(a)[i] != Path(b)[i]
    ensures Path(a)[0] == Path(b)[0] ==> r != null
  {
    hide Path;
    var pa: BlockIndex?, pb: BlockIndex? := a, b;
    if a.nHeight > b.nHeight {
      ghost var steps;
      pa, steps := a.GetAncestor(b.nHeight, a);
      PathOfPath(a, b.nHeight);
    } else if b.nHeight > a.nHeight {
      ghost var steps;
      pb, steps := b.GetAncestor(a.nHeight, b);
      PathOfPath(b, a.nHeight);
    }
    while pa != pb && pa != null && pb != null
      invariant pa == null <==> pb == null
      invariant pa != null ==> OnPath(a, pa) && OnPath(b, pb) && pa.nHeight == pb.nHeight
      invariant forall i :: (if pa == null then 0 else pa.nHeight + 1) <= i <= a.nHeight && i <= b.nHeight ==> Path(a)[i] != Path(b)[i]
      decreases if pa == null then 0 else pa.nHeight + 1
    {
      Parent(a, pa);
      Parent(b, pb);
      pa := pa.pprev;
      pb := pb.pprev;
    }
    assert pa == pb;
    return pa;
  }
}
