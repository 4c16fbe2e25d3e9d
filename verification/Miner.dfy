/**
 * Block template assembly (src/miner.h, src/miner.cpp): the greedy package scheduler, its lazily
 * corrected side table of ancestor totals, and the running totals of the block under construction.
 */
module Miner {
  import opened Basics
  import opened SetSum
  import opened Mempool

  const MAX_BLOCK_SIGOPS_COST := 80_000
  const MAX_CONSECUTIVE_FAILURES := 1000

  /** mapModifiedTx: corrected ancestor totals of transactions with ancestors already in the block. */
  type ModifiedSet = map<TxId, Totals>

  // ----- ordering by ancestor fee rate --------------------------------------------------------

  /** The fee rate used for sorting: the lower of the transaction's own and its package's. */
  function SortRate(pool: Pool, t: TxId, totals: Totals): real
    requires t in pool.entries
  {
    var ownSize := pool.VirtualSize(pool.entries[t]);
    var own := if ownSize == 0 then 0.0 else pool.entries[t].modifiedFee as real / ownSize as real;
    var pkg := if totals.size == 0 then 0.0 else totals.modFees as real / totals.size as real;
    if own > pkg then pkg else own
  }

  /** CompareTxMemPoolEntryByAncestorFee, on exact rates: higher rate first, then the lower hash. */
  predicate Better(pool: Pool, t: TxId, totals: Totals, u: TxId, uTotals: Totals)
    requires t in pool.entries && u in pool.entries
  {
    var r, s := SortRate(pool, t, totals), SortRate(pool, u, uTotals);
    if r == s then t < u else r > s
  }

  /** GetModFeeAndSize: the fee and size of the lower rate, found without a division. */
  function ModFeeAndSize(pool: Pool, t: TxId, totals: Totals): (int, int)
    requires t in pool.entries
  {
    var e := pool.entries[t];
    if e.modifiedFee * totals.size > totals.modFees * pool.VirtualSize(e) then (totals.modFees, totals.size)
    else (e.modifiedFee, pool.VirtualSize(e))
  }

  /** Fractions compare as their cross products. */
  lemma CrossProducts(f: int, n: int, g: int, m: int)
    requires n > 0 && m > 0
    ensures f as real / n as real > g as real / m as real <==> f * m > g * n
    ensures f as real / n as real == g as real / m as real <==> f * m == g * n
  {
    var x, y := f as real / n as real, g as real / m as real;
    assert (f * m) as real == x * (n as real * m as real) by {
      assert f as real == x * n as real;
    }
    assert (g * n) as real == y * (n as real * m as real) by {
      assert g as real == y * m as real;
    }
    Scaled(x, y, n as real * m as real);
  }

  lemma Scaled(x: real, y: real, z: real)
    requires z > 0.0
    ensures x > y <==> x * z > y * z
    ensures x == y <==> x * z == y * z
  {
    assert x * z - y * z == (x - y) * z;
  }

  /** The order by exact rates is what cross products decide. */
  lemma BetterIff(pool: Pool, t: TxId, totals: Totals, u: TxId, uTotals: Totals)
    requires t in pool.entries && u in pool.entries && pool.entries[t].weight > 0 && pool.entries[u].weight > 0
    requires totals.size > 0 && uTotals.size > 0
    ensures var (f, n), (g, m) := ModFeeAndSize(pool, t, totals), ModFeeAndSize(pool, u, uTotals);
            Better(pool, t, totals, u, uTotals) <==> if f * m == n * g then t < u else f * m > n * g
  {
    var (f, n) := ModFeeAndSize(pool, t, totals);
    var (g, m) := ModFeeAndSize(pool, u, uTotals);
    LowerRate(pool, t, totals);
    LowerRate(pool, u, uTotals);
    CrossProducts(f, n, g, m);
  }

  lemma LowerRate(pool: Pool, t: TxId, totals: Totals)
    requires t in pool.entries && pool.entries[t].weight > 0 && totals.size > 0
    ensures var (f, n) := ModFeeAndSize(pool, t, totals); n > 0 && SortRate(pool, t, totals) == f as real / n as real
  {
    CrossProducts(pool.entries[t].modifiedFee, pool.VirtualSize(pool.entries[t]), totals.modFees, totals.size);
  }

  /** The order is strict. */
  lemma BetterStrict(pool: Pool, t: TxId, totals: Totals, u: TxId, uTotals: Totals)
    requires t in pool.entries && u in pool.entries
    ensures !Better(pool, t, totals, t, totals)
    ensures Better(pool, t, totals, u, uTotals) ==> !Better(pool, u, uTotals, t, totals)
  {}

  lemma BetterTransitive(pool: Pool, t: TxId, tt: Totals, u: TxId, uu: Totals, v: TxId, vv: Totals)
    requires t in pool.entries && u in pool.entries && v in pool.entries
    requires Better(pool, t, tt, u, uu) && Better(pool, u, uu, v, vv)
    ensures Better(pool, t, tt, v, vv)
  {}

  /** What beats the best of the table beats all of the table. */
  lemma BestBeatsAll(pool: Pool, modified: ModifiedSet, best: TxId, t: TxId, totals: Totals)
    requires best in modified && modified.Keys <= pool.entries.Keys && t in pool.entries
    requires forall u :: u in modified && u != best ==> Better(pool, best, modified[best], u, modified[u])
    ensures forall u :: u in modified ==> !Better(pool, u, modified[u], best, modified[best])
    ensures !Better(pool, best, modified[best], t, totals) ==> forall u :: u in modified ==> !Better(pool, u, modified[u], t, totals)
  {
    hide Better;
    forall u | u in modified
      ensures !Better(pool, u, modified[u], best, modified[best])
      ensures !Better(pool, best, modified[best], t, totals) ==> !Better(pool, u, modified[u], t, totals)
    {
      BetterStrict(pool, best, modified[best], u, modified[u]);
      if u != best && Better(pool, u, modified[u], t, totals) {
        BetterTransitive(pool, best, modified[best], u, modified[u], t, totals);
      }
    }
  }

  /** begin() of the ancestor_score index of mapModifiedTx. */
  method BestModified(pool: Pool, modified: ModifiedSet) returns (best: TxId)
    requires modified != map[] && modified.Keys <= pool.entries.Keys
    ensures best in modified
    ensures forall u :: u in modified && u != best ==> Better(pool, best, modified[best], u, modified[u])
  {
    best :| best in modified;
    var rest := modified.Keys - {best};
    while rest != {}
      invariant rest <= modified.Keys
      invariant best in modified && best !in rest
      invariant forall u :: u in modified && u !in rest && u != best ==>
                              Better(pool, best, modified[best], u, modified[u])
      decreases rest
    {
      var u :| u in rest;
      rest := rest - {u};
      if Better(pool, u, modified[u], best, modified[best]) {
        best := u;
      }
    }
  }

  // ----- correctness of a block body ----------------------------------------------------------

  /** Every transaction comes from the pool and comes after all its in-pool ancestors. */
  ghost predicate ParentsFirst(pool: Pool, s: seq<TxId>) {
    forall i :: 0 <= i < |s| ==> s[i] in pool.ancestors && AncestorsBefore(pool, s, i)
  }

  ghost predicate AncestorsBefore(pool: Pool, s: seq<TxId>, i: nat)
    requires i < |s| && s[i] in pool.ancestors
  {
    forall a :: a in pool.ancestors[s[i]] ==> a in s[..i]
  }

  /** The block body and the set of its transactions. */
  ghost predicate BodyOk(pool: Pool, vtx: seq<TxId>, inBlock: set<TxId>) {
    Distinct(vtx) && inBlock == Elements(vtx) && ParentsFirst(pool, vtx)
  }

  lemma ParentsFirstExtends(pool: Pool, vtx: seq<TxId>, t: TxId)
    requires ParentsFirst(pool, vtx)
    requires t in pool.ancestors && (forall a :: a in pool.ancestors[t] ==> a in vtx)
    ensures ParentsFirst(pool, vtx + [t])
  {
    var vtx' := vtx + [t];
    forall i | 0 <= i < |vtx'|
      ensures vtx'[i] in pool.ancestors && AncestorsBefore(pool, vtx', i)
    {
      if i < |vtx| {
        assert vtx'[..i] == vtx[..i];
        assert AncestorsBefore(pool, vtx, i);
      } else {
        assert vtx'[..i] == vtx;
      }
    }
  }

  lemma BodyExtends(pool: Pool, vtx: seq<TxId>, inBlock: set<TxId>, t: TxId)
    requires BodyOk(pool, vtx, inBlock)
    requires t in pool.ancestors && t !in inBlock && pool.ancestors[t] <= inBlock
    ensures BodyOk(pool, vtx + [t], inBlock + {t})
  {
    ParentsFirstExtends(pool, vtx, t);
    ElementsExtend(vtx, t);
  }

  lemma ElementsExtend(s: seq<TxId>, t: TxId)
    ensures Elements(s + [t]) == Elements(s) + {t}
  {}

  lemma ElementsNone(s: seq<TxId>)
    ensures Elements(s[..0]) == {}
  {}

  lemma NotBefore(s: seq<TxId>, i: nat)
    requires Distinct(s) && i < |s|
    ensures s[i] !in Elements(s[..i])
  {}

  /** The block holds all in-pool ancestors of what it holds. */
  lemma BodyClosed(pool: Pool, vtx: seq<TxId>, inBlock: set<TxId>)
    requires pool.Valid() && BodyOk(pool, vtx, inBlock)
    ensures Closed(pool, inBlock)
  {
    forall t | t in inBlock
      ensures t in pool.entries && pool.ancestors[t] <= inBlock
    {
      var i :| 0 <= i < |vtx| && vtx[i] == t;
      assert Elements(vtx[..i]) <= Elements(vtx);
    }
  }

  ghost predicate Closed(pool: Pool, s: set<TxId>)
    requires pool.Valid()
  {
    forall t :: t in s ==> t in pool.entries && pool.ancestors[t] <= s
  }

  function SeqSum(s: seq<int>): int {
    if s == [] then 0 else SeqSum(s[..|s| - 1]) + s[|s| - 1]
  }

  lemma {:induction false} SeqSumReplaceFirst(s: seq<int>, x: int)
    requires s != []
    ensures SeqSum(s[0 := x]) == SeqSum(s) - s[0] + x
  {
    var n := |s| - 1;
    if n == 0 {
      assert s[0 := x][..n] == s[..n] == [];
    } else {
      assert s[0 := x][..n] == s[..n][0 := x];
      SeqSumReplaceFirst(s[..n], x);
    }
  }

  /** The template's fee and sigop vectors, slot 0 being the coinbase's. */
  ghost predicate VectorsOk(pool: Pool, vtx: seq<TxId>, fees: seq<int>, sigOps: seq<int>)
    requires forall t :: t in vtx ==> t in pool.entries
  {
    && |fees| == |sigOps| == 1 + |vtx|
    && (forall i :: 0 <= i < |vtx| ==> fees[i + 1] == pool.entries[vtx[i]].fee)
    && (forall i :: 0 <= i < |vtx| ==> sigOps[i + 1] == pool.entries[vtx[i]].sigOps)
  }

  /** The running counters agree with the block body. */
  ghost predicate CountersOk(pool: Pool, vtx: seq<TxId>, inBlock: set<TxId>, nTx: nat, weight: int, sigOpsCost: int) {
    && nTx == |vtx|
    && weight == 4000 + Sum(inBlock, pool.Weights())
    && sigOpsCost == 400 + Sum(inBlock, pool.SigOps())
  }

  ghost predicate FeesOk(pool: Pool, vtx: seq<TxId>, fees: seq<int>, sigOps: seq<int>, nFees: int) {
    && (forall t :: t in vtx ==> t in pool.entries)
    && VectorsOk(pool, vtx, fees, sigOps)
    && nFees == SeqSum(fees) - fees[0]
  }

  lemma CountersExtend(pool: Pool, vtx: seq<TxId>, inBlock: set<TxId>, nTx: nat, weight: int, sigOpsCost: int, t: TxId)
    requires CountersOk(pool, vtx, inBlock, nTx, weight, sigOpsCost) && t in pool.entries && t !in inBlock
    ensures CountersOk(pool, vtx + [t], inBlock + {t}, nTx + 1,
                       weight + pool.entries[t].weight, sigOpsCost + pool.entries[t].sigOps)
  {
    SumPut(inBlock, pool.Weights(), t);
    SumPut(inBlock, pool.SigOps(), t);
  }

  lemma FeesExtend(pool: Pool, vtx: seq<TxId>, fees: seq<int>, sigOps: seq<int>, nFees: int, t: TxId)
    requires FeesOk(pool, vtx, fees, sigOps, nFees) && t in pool.entries
    ensures FeesOk(pool, vtx + [t], fees + [pool.entries[t].fee], sigOps + [pool.entries[t].sigOps],
                   nFees + pool.entries[t].fee)
  {
    var fees' := fees + [pool.entries[t].fee];
    assert fees'[..|fees'| - 1] == fees;
  }

  /** With the coinbase slot set to minus the fees, the fee vector sums to zero. */
  lemma CoinbaseFee(pool: Pool, vtx: seq<TxId>, fees: seq<int>, sigOps: seq<int>, nFees: int)
    requires FeesOk(pool, vtx, fees, sigOps, nFees)
    ensures |fees| > 0 && (forall t :: t in vtx ==> t in pool.entries)
    ensures VectorsOk(pool, vtx, fees[0 := -nFees], sigOps) && SeqSum(fees[0 := -nFees]) == 0
  {
    SeqSumReplaceFirst(fees, -nFees);
  }

  // ----- the side table ------------------------------------------------------------------------

  /** Ancestors-and-self of t that are not in the block yet: what including t would add. */
  function Remaining(pool: Pool, inBlock: set<TxId>, t: TxId): set<TxId>
    requires t in pool.ancestors
  {
    pool.Package(t) - inBlock
  }

  /** What prioritisation added to a fee. */
  ghost function Deltas(pool: Pool): TxId -> int {
    t => if t in pool.entries then pool.entries[t].modifiedFee - pool.entries[t].fee else 0
  }

  /**
   * The ancestors in the block by how a tracked total treats them: still counted, taken out exactly, or
   * taken out with their base fee although they were counted with the modified one.
   */
  datatype Ledger = Ledger(over: set<TxId>, exact: set<TxId>, drift: set<TxId>)

  ghost function Counted(pool: Pool, due: set<TxId>, l: Ledger): Totals {
    Totals(Sum(due, pool.Sizes()) + Sum(l.over, pool.Sizes()),
           Sum(due, pool.ModFees()) + Sum(l.over, pool.ModFees()) + Sum(l.drift, Deltas(pool)),
           Sum(due, pool.SigOps()) + Sum(l.over, pool.SigOps()))
  }

  /** The ancestors in the block, each in one place; one of them, if there are any, was taken out exactly. */
  ghost predicate Partition(l: Ledger, included: set<TxId>) {
    && l.over + l.exact + l.drift == included
    && l.over !! l.exact && l.over !! l.drift && l.exact !! l.drift
    && |l.exact| == if included == {} then 0 else 1
  }

  /** The total is the true remaining one, off by exactly what the ledger says; nothing is over-counted unless t failed. */
  ghost predicate Books(pool: Pool, inBlock: set<TxId>, failed: bool, t: TxId, totals: Totals, l: Ledger)
    requires t in pool.ancestors
  {
    && Partition(l, pool.ancestors[t] * inBlock)
    && (failed || l.over == {})
    && totals == Counted(pool, Remaining(pool, inBlock, t), l)
  }

  /** A total as the scheduler may hold it for a transaction outside the block. */
  ghost predicate Tracked(pool: Pool, inBlock: set<TxId>, failed: bool, t: TxId, totals: Totals) {
    && t in pool.entries && t in pool.ancestors && t !in inBlock
    && exists l :: Books(pool, inBlock, failed, t, totals, l)
  }

  ghost predicate ModifiedOk(pool: Pool, inBlock: set<TxId>, failed: set<TxId>, t: TxId, totals: Totals) {
    Tracked(pool, inBlock, t in failed, t, totals)
  }

  lemma DisjointSum<T(!new)>(s: set<T>, t: set<T>, f: T -> int)
    requires s !! t
    ensures Sum(s + t, f) == Sum(s, f) + Sum(t, f)
  {
    SumSplit(s + t, s, f);
    assert s + t - s == t;
  }

  /** Tracked size and sigops lie between the true remaining ones and the cached ones, and are exact for a transaction that never failed. */
  lemma Covers(pool: Pool, inBlock: set<TxId>, failed: bool, t: TxId, totals: Totals)
    requires pool.Valid() && Tracked(pool, inBlock, failed, t, totals)
    ensures var due := pool.TotalsOf(Remaining(pool, inBlock, t));
            && 0 <= due.size <= totals.size <= pool.cached[t].size && 0 <= due.sigOps <= totals.sigOps <= pool.cached[t].sigOps
            && (!failed ==> totals.size == due.size && totals.sigOps == due.sigOps)
  {
    var l :| Books(pool, inBlock, failed, t, totals, l);
    var due := Remaining(pool, inBlock, t);
    assert pool.cached[t] == pool.TotalsOf(pool.Package(t)) by { assert pool.CachedOk(t); }
    CountedBetween(pool, due, l, pool.Package(t));
    if !failed {
      CountedExactly(pool, due, l);
    }
  }

  lemma CountedBetween(pool: Pool, due: set<TxId>, l: Ledger, all: set<TxId>)
    requires due <= all && l.over <= all && due !! l.over
    ensures 0 <= pool.TotalsOf(due).size <= Counted(pool, due, l).size <= pool.TotalsOf(all).size
    ensures 0 <= pool.TotalsOf(due).sigOps <= Counted(pool, due, l).sigOps <= pool.TotalsOf(all).sigOps
  {
    DisjointSum(due, l.over, pool.Sizes());
    DisjointSum(due, l.over, pool.SigOps());
    pool.TotalsMonotone(due + l.over, due);
    pool.TotalsMonotone(all, due + l.over);
  }

  lemma CountedExactly(pool: Pool, due: set<TxId>, l: Ledger)
    requires l.over == {}
    ensures Counted(pool, due, l).size == pool.TotalsOf(due).size && Counted(pool, due, l).sigOps == pool.TotalsOf(due).sigOps
    ensures Counted(pool, due, l).modFees == pool.TotalsOf(due).modFees + Sum(l.drift, Deltas(pool))
  {}

  /** Without fee deltas the tracked fee of a transaction that never failed is exact. */
  lemma ExactFee(pool: Pool, inBlock: set<TxId>, t: TxId, totals: Totals)
    requires pool.Valid() && Tracked(pool, inBlock, false, t, totals)
    requires forall a :: a in pool.ancestors[t] && a in pool.entries ==> pool.entries[a].fee == pool.entries[a].modifiedFee
    ensures totals == pool.TotalsOf(Remaining(pool, inBlock, t))
  {
    hide Counted, Pool.Valid, Pool.TotalsOf;
    var l :| Books(pool, inBlock, false, t, totals, l);
    CountedExactly(pool, Remaining(pool, inBlock, t), l);
    SumZero(l.drift, Deltas(pool));
  }

  lemma {:induction false} SumZero<T(!new)>(s: set<T>, f: T -> int)
    requires forall x :: x in s ==> f(x) == 0
    ensures Sum(s, f) == 0
    decreases s
  {
    if s != {} {
      var x :| x in s;
      SumTake(s, f, x);
      SumZero(s - {x}, f);
    }
  }

  /** Cached totals are exact as long as no ancestor is in the block. */
  lemma Untouched(pool: Pool, inBlock: set<TxId>, failed: bool, t: TxId)
    requires pool.Valid() && t in pool.entries && t !in inBlock && pool.ancestors[t] !! inBlock
    ensures Tracked(pool, inBlock, failed, t, pool.cached[t])
  {
    assert pool.CachedOk(t);
    assert Remaining(pool, inBlock, t) == pool.Package(t);
    assert Books(pool, inBlock, failed, t, pool.cached[t], Ledger({}, {}, {}));
  }

  /** Some ancestor is in the block. */
  ghost predicate Touched(pool: Pool, inBlock: set<TxId>, t: TxId) {
    t in pool.ancestors && pool.ancestors[t] * inBlock != {}
  }

  /** The scheduler's invariant for mapModifiedTx and failedTx. */
  ghost predicate SideTableOk(pool: Pool, inBlock: set<TxId>, failed: set<TxId>, modified: ModifiedSet)
    requires pool.Valid()
  {
    && (forall t :: t in modified ==> ModifiedOk(pool, inBlock, failed, t, modified[t]) && Touched(pool, inBlock, t))
    && (forall t :: t in pool.entries && t !in modified && t !in inBlock && t !in failed ==>
                      pool.ancestors[t] !! inBlock)
  }

  /** update_for_parent_inclusion: note that it subtracts the base fee, not the modified fee. */
  function ForParentInclusion(pool: Pool, e: Totals, parent: TxId): Totals
    requires parent in pool.entries
  {
    var p := pool.entries[parent];
    Totals(e.size - pool.VirtualSize(p), e.modFees - p.fee, e.sigOps - p.sigOps)
  }

  /** A transaction's first included ancestor is subtracted with its modified fee. */
  function FirstCorrection(pool: Pool, cached: Totals, parent: TxId): Totals
    requires parent in pool.entries
  {
    var p := pool.entries[parent];
    Totals(cached.size - pool.VirtualSize(p), cached.modFees - p.modifiedFee, cached.sigOps - p.sigOps)
  }

  /**
   * Exact totals stay exact under a parent inclusion iff the parent carries no fee delta: the
   * tracked modified fee drifts by exactly that delta otherwise.
   */
  lemma ParentInclusionExactIff(pool: Pool, s: set<TxId>, parent: TxId)
    requires parent in s && parent in pool.entries
    ensures ForParentInclusion(pool, pool.TotalsOf(s), parent) == pool.TotalsOf(s - {parent}) <==>
            pool.entries[parent].fee == pool.entries[parent].modifiedFee
    ensures FirstCorrection(pool, pool.TotalsOf(s), parent) == pool.TotalsOf(s - {parent})
  {
    pool.TotalsTake(s, parent);
  }

  /** CalculateDescendants: in-pool descendants, the transaction itself included. */
  function Descendants(pool: Pool, it: TxId): set<TxId>
    requires pool.ancestors.Keys == pool.entries.Keys
  {
    set t | t in pool.entries && (t == it || it in pool.ancestors[t])
  }

  /** One descendant's totals after one of its ancestors entered the block. */
  function Corrected(pool: Pool, start: ModifiedSet, it: TxId, t: TxId): Totals
    requires it in pool.entries && t in pool.cached
  {
    if t in start then ForParentInclusion(pool, start[t], it) else FirstCorrection(pool, pool.cached[t], it)
  }

  /** The table `start` with the totals of the transactions in `hit` corrected for `it`. */
  ghost predicate CorrectedFor(pool: Pool, start: ModifiedSet, it: TxId, hit: set<TxId>, modified: ModifiedSet)
    requires it in pool.entries && hit <= pool.cached.Keys
  {
    && (forall t :: t in modified <==> t in start || t in hit)
    && (forall t :: t in modified ==> modified[t] == if t in hit then Corrected(pool, start, it, t) else start[t])
  }

  /** The inner loop of UpdatePackagesForAdded, over the descendants of one added transaction. */
  method UpdateDescendants(pool: Pool, added: set<TxId>, it: TxId, descendants: set<TxId>, start: ModifiedSet)
    returns (modified: ModifiedSet, updated: nat)
    requires it in pool.entries && descendants <= pool.cached.Keys
    ensures CorrectedFor(pool, start, it, descendants - added, modified)
    ensures updated == |descendants - added|
  {
    modified, updated := start, 0;
    var todo := descendants;
    ghost var hit: set<TxId> := {};
    while todo != {}
      invariant todo <= descendants && hit <= descendants
      invariant forall t :: t in hit <==> t in descendants && t !in todo && t !in added
      invariant updated == |hit|
      invariant CorrectedFor(pool, start, it, hit, modified)
      decreases todo
    {
      var desc :| desc in todo;
      todo := todo - {desc};
      if desc in added {
        continue;
      }
      updated := updated + 1;
      hit := hit + {desc};
      if desc !in modified {
        modified := modified[desc := FirstCorrection(pool, pool.cached[desc], it)];
      } else {
        modified := modified[desc := ForParentInclusion(pool, modified[desc], it)];
      }
    }
    assert hit == descendants - added;
  }

  /**
   * State of the side table halfway through UpdatePackagesForAdded: the transactions of `done` count
   * as included for every transaction outside `added`.
   */
  ghost predicate Halfway(pool: Pool, inBlock: set<TxId>, failed: set<TxId>, added: set<TxId>,
                          done: set<TxId>, modified: ModifiedSet)
    requires pool.Valid()
  {
    && modified.Keys !! added
    && SideTableOn(pool, added, inBlock + done, failed, modified)
  }

  /** SideTableOk for the transactions outside `added`. */
  ghost predicate SideTableOn(pool: Pool, added: set<TxId>, inBlock: set<TxId>, failed: set<TxId>, modified: ModifiedSet)
    requires pool.Valid()
  {
    && (forall t :: t in modified ==> ModifiedOk(pool, inBlock, failed, t, modified[t]) && Touched(pool, inBlock, t))
    && (forall t :: t in pool.entries && t !in modified && t !in inBlock && t !in failed && t !in added ==>
                      pool.ancestors[t] !! inBlock)
  }

  /** Correcting a total for one newly included ancestor keeps its books. */
  lemma CorrectionCovers(pool: Pool, inBlock: set<TxId>, failed: set<TxId>, start: ModifiedSet, it: TxId, t: TxId)
    requires pool.Valid() && t in pool.entries && it in pool.entries && it in pool.ancestors[t] && it !in inBlock && t !in inBlock
    requires t in start ==> ModifiedOk(pool, inBlock, failed, t, start[t]) && Touched(pool, inBlock, t)
    requires t !in start && t !in failed ==> pool.ancestors[t] !! inBlock
    ensures ModifiedOk(pool, inBlock + {it}, failed, t, Corrected(pool, start, it, t)) && Touched(pool, inBlock + {it}, t)
  {
    hide Books, Pool.Valid, FirstCorrection, ForParentInclusion;
    NotOwnAncestor(pool, t);
    assert it in pool.ancestors[t] * (inBlock + {it});
    if t in start {
      var l :| Books(pool, inBlock, t in failed, t, start[t], l);
      BooksDrift(pool, inBlock, t in failed, it, t, start[t], l);
    } else {
      FirstBooks(pool, inBlock, t in failed, start, it, t);
    }
  }

  lemma BooksDrift(pool: Pool, inBlock: set<TxId>, failed: bool, it: TxId, t: TxId, totals: Totals, l: Ledger)
    requires Touched(pool, inBlock, t) && it in pool.entries && it in pool.ancestors[t] && it !in inBlock
    requires Books(pool, inBlock, failed, t, totals, l)
    ensures Books(pool, inBlock + {it}, failed, t, ForParentInclusion(pool, totals, it), l.(drift := l.drift + {it}))
  {
    hide Partition, Counted, ForParentInclusion;
    var due := Remaining(pool, inBlock, t);
    assert Remaining(pool, inBlock + {it}, t) == due - {it};
    assert pool.ancestors[t] * (inBlock + {it}) == pool.ancestors[t] * inBlock + {it};
    PartitionDrift(l, pool.ancestors[t] * inBlock, it);
    CountedDrift(pool, due, l, it);
  }

  lemma NotOwnAncestor(pool: Pool, t: TxId)
    requires pool.Valid() && t in pool.entries
    ensures t in pool.ancestors && t !in pool.ancestors[t]
  {
    assert pool.ValidEntry(t);
  }

  lemma CountedFirst(pool: Pool, due: set<TxId>, over: set<TxId>, it: TxId)
    ensures var d, o := pool.TotalsOf(due), pool.TotalsOf(over);
            Counted(pool, due, Ledger(over, {it}, {})) == Totals(d.size + o.size, d.modFees + o.modFees, d.sigOps + o.sigOps)
  {}

  lemma PartitionFirst(included: set<TxId>, it: TxId)
    requires it !in included
    ensures Partition(Ledger(included, {it}, {}), included + {it})
  {}

  lemma PartitionDrift(l: Ledger, included: set<TxId>, it: TxId)
    requires Partition(l, included) && it !in included && included != {}
    ensures Partition(l.(drift := l.drift + {it}), included + {it}) && it !in l.drift
  {}

  lemma CountedDrift(pool: Pool, due: set<TxId>, l: Ledger, it: TxId)
    requires it in due && it !in l.drift && it in pool.entries
    ensures Counted(pool, due - {it}, l.(drift := l.drift + {it})) == ForParentInclusion(pool, Counted(pool, due, l), it)
  {
    pool.TotalsTake(due, it);
    SumPut(l.drift, Deltas(pool), it);
  }

  lemma FirstBooks(pool: Pool, inBlock: set<TxId>, failed: bool, start: ModifiedSet, it: TxId, t: TxId)
    requires pool.Valid() && t in pool.entries && it in pool.entries && it in pool.ancestors[t] && it !in inBlock && t !in inBlock
    requires t !in start && (!failed ==> pool.ancestors[t] !! inBlock)
    ensures Books(pool, inBlock + {it}, failed, t, Corrected(pool, start, it, t), Ledger(pool.ancestors[t] * inBlock, {it}, {}))
  {
    hide Pool.ValidEntry, Pool.CachedOk, Pool.TotalsOf, Corrected, Remaining, Partition, Counted;
    ReinsertionOvercount(pool, inBlock, start, it, t);
    CountedFirst(pool, Remaining(pool, inBlock + {it}, t), pool.ancestors[t] * inBlock, it);
    assert pool.ancestors[t] * (inBlock + {it}) == pool.ancestors[t] * inBlock + {it};
    PartitionFirst(pool.ancestors[t] * inBlock, it);
  }

  /**
   * A failed transaction that enters the table again is over-counted by exactly its ancestors that
   * were already in the block: its totals are exact iff those ancestors weigh nothing.
   */
  lemma ReinsertionOvercount(pool: Pool, inBlock: set<TxId>, start: ModifiedSet, it: TxId, t: TxId)
    requires pool.Valid() && t in pool.entries && it in pool.entries && it in pool.ancestors[t]
    requires it !in inBlock && t !in inBlock && t !in start
    ensures var got, due, old' := Corrected(pool, start, it, t), pool.TotalsOf(Remaining(pool, inBlock + {it}, t)),
                                  pool.TotalsOf(pool.ancestors[t] * inBlock);
            got == Totals(due.size + old'.size, due.modFees + old'.modFees, due.sigOps + old'.sigOps)
  {
    assert pool.CachedOk(t);
    var due := Remaining(pool, inBlock, t);
    assert Remaining(pool, inBlock + {it}, t) == due - {it};
    pool.TotalsTake(due, it);
    pool.TotalsSplit(pool.Package(t), due);
    assert pool.Package(t) - due == pool.ancestors[t] * inBlock;
  }

  lemma NonDescendantKept(pool: Pool, inBlock: set<TxId>, failed: set<TxId>, it: TxId, t: TxId, totals: Totals)
    requires pool.Valid() && ModifiedOk(pool, inBlock, failed, t, totals)
    requires it !in pool.Package(t)
    ensures ModifiedOk(pool, inBlock + {it}, failed, t, totals)
  {
    hide Pool.Valid, Partition, Counted;
    assert Remaining(pool, inBlock + {it}, t) == Remaining(pool, inBlock, t);
    assert pool.ancestors[t] * (inBlock + {it}) == pool.ancestors[t] * inBlock;
    var l :| Books(pool, inBlock, t in failed, t, totals, l);
    assert Books(pool, inBlock + {it}, t in failed, t, totals, l);
  }

  lemma HalfwayStep(pool: Pool, inBlock: set<TxId>, failed: set<TxId>, added: set<TxId>, done: set<TxId>,
                    it: TxId, start: ModifiedSet, modified: ModifiedSet)
    requires pool.Valid() && Closed(pool, inBlock) && added <= pool.entries.Keys
    requires done <= added && it in added && it !in done && it !in inBlock
    requires Halfway(pool, inBlock, failed, added, done, start)
    requires CorrectedFor(pool, start, it, Descendants(pool, it) - added, modified)
    ensures Halfway(pool, inBlock, failed, added, done + {it}, modified)
  {
    hide Tracked, Corrected, Pool.ValidEntry, Pool.CachedOk;
    var included := inBlock + done;
    assert inBlock + (done + {it}) == included + {it};
    forall t | t in modified
      ensures ModifiedOk(pool, included + {it}, failed, t, modified[t]) && Touched(pool, included + {it}, t)
    {
      if t in Descendants(pool, it) - added {
        CorrectionCovers(pool, included, failed, start, it, t);
      } else {
        TrackedInPool(pool, included, failed, t, modified[t]);
        assert t !in Descendants(pool, it);
        NonDescendantKept(pool, included, failed, it, t, modified[t]);
      }
    }
    forall t | t in pool.entries && t !in modified && t !in included + {it} && t !in failed && t !in added
      ensures pool.ancestors[t] !! included + {it}
    {
      assert t !in Descendants(pool, it);
    }
  }

  lemma HalfwayDone(pool: Pool, inBlock: set<TxId>, failed: set<TxId>, added: set<TxId>, modified: ModifiedSet)
    requires pool.Valid() && Halfway(pool, inBlock, failed, added, added, modified)
    ensures SideTableOk(pool, inBlock + added, failed, modified)
  {}

  /** The table still has what it had, and has every descendant of `done` outside `added`. */
  ghost predicate Reached(pool: Pool, added: set<TxId>, done: set<TxId>, start: ModifiedSet, modified: ModifiedSet)
    requires pool.Valid()
  {
    && (forall t :: t in start ==> t in modified)
    && (forall t :: t in pool.entries && t !in added && !(pool.ancestors[t] !! done) ==> t in modified)
  }

  lemma ReachedNone(pool: Pool, added: set<TxId>, start: ModifiedSet)
    requires pool.Valid()
    ensures Reached(pool, added, {}, start, start)
  {}

  lemma ReachedStep(pool: Pool, added: set<TxId>, done: set<TxId>, it: TxId, start: ModifiedSet, before: ModifiedSet, modified: ModifiedSet)
    requires pool.Valid() && it in pool.entries && Reached(pool, added, done, start, before)
    requires CorrectedFor(pool, before, it, Descendants(pool, it) - added, modified)
    ensures Reached(pool, added, done + {it}, start, modified)
  {
    forall t | t in pool.entries && t !in added && !(pool.ancestors[t] !! done + {it})
      ensures t in modified
    {
      if pool.ancestors[t] !! done {
        assert t in Descendants(pool, it) - added;
      }
    }
  }

  /** How many totals are corrected for the given members of a package: those of their descendants outside the package. */
  ghost function Updates(pool: Pool, package: set<TxId>, members: set<TxId>): int {
    Sum(members, (it: TxId) => if pool.ancestors.Keys == pool.entries.Keys then |Descendants(pool, it) - package| else 0)
  }

  lemma UpdatesNone(pool: Pool, package: set<TxId>)
    ensures Updates(pool, package, {}) == 0
  {}

  lemma UpdatesPut(pool: Pool, package: set<TxId>, members: set<TxId>, it: TxId)
    requires it !in members && pool.ancestors.Keys == pool.entries.Keys
    ensures Updates(pool, package, members + {it}) == Updates(pool, package, members) + |Descendants(pool, it) - package|
  {
    SumPut(members, (it: TxId) => if pool.ancestors.Keys == pool.entries.Keys then |Descendants(pool, it) - package| else 0, it);
  }

  /**
   * UpdatePackagesForAdded: correct the totals of every descendant that is not itself being added.
   * Cached size and sigops never fall below what is still to be added, and stay exact for every
   * transaction that has not failed before.
   */
  method UpdatePackagesForAdded(pool: Pool, ghost inBlock: set<TxId>, ghost failed: set<TxId>,
                                added: set<TxId>, start: ModifiedSet)
    returns (modified: ModifiedSet, nDescendantsUpdated: nat)
    requires pool.Valid() && Closed(pool, inBlock) && added <= pool.entries.Keys && added !! inBlock
    requires Halfway(pool, inBlock, failed, added, {}, start)
    ensures SideTableOk(pool, inBlock + added, failed, modified)
    ensures Reached(pool, added, added, start, modified)
    ensures nDescendantsUpdated == Updates(pool, added, added)
  {
    hide Halfway, SideTableOk, Closed, CorrectedFor, Reached, Updates;
    UpdatesNone(pool, added);
    modified, nDescendantsUpdated := start, 0;
    var todo := added;
    ghost var done: set<TxId> := {};
    ReachedNone(pool, added, start);
    while todo != {}
      invariant done + todo == added && done !! todo
      invariant Halfway(pool, inBlock, failed, added, done, modified)
      invariant Reached(pool, added, done, start, modified)
      invariant nDescendantsUpdated == Updates(pool, added, done)
      decreases todo
    {
      var it :| it in todo;
      ghost var before := modified;
      var n;
      modified, n := UpdateDescendants(pool, added, it, Descendants(pool, it), modified);
      HalfwayStep(pool, inBlock, failed, added, done, it, before, modified);
      ReachedStep(pool, added, done, it, start, before, modified);
      UpdatesPut(pool, added, done, it);
      nDescendantsUpdated := nDescendantsUpdated + n;
      done, todo := done + {it}, todo - {it};
    }
    assert done == added;
    HalfwayDone(pool, inBlock, failed, added, modified);
  }

  // ----- nothing is forgotten --------------------------------------------------------------------

  /** How full the block is, and what it takes. */
  datatype Fill = Fill(inBlock: set<TxId>, weight: int, sigOps: int, maxWeight: nat, withWitness: bool)
  {
    /** TestPackage */
    predicate Room(size: int, sigOpsCost: int) {
      weight + WITNESS_SCALE_FACTOR * size < maxWeight && sigOps + sigOpsCost < MAX_BLOCK_SIGOPS_COST
    }

    predicate Welcome(e: Entry) {
      e.isFinal && (withWitness || !e.hasWitness)
    }

    /** The block with an acceptable package added. */
    ghost predicate Grows(pool: Pool, f: Fill, package: set<TxId>) {
      && package !! inBlock && f == Fill(inBlock + package, weight + Sum(package, pool.Weights()), sigOps + Sum(package, pool.SigOps()),
                                         maxWeight, withWitness)
      && forall t :: t in package && t in pool.entries ==> Welcome(pool.entries[t])
    }
  }

  /** Some transaction that would have to come along is not acceptable. */
  ghost predicate Unwelcome(pool: Pool, f: Fill, t: TxId)
    requires t in pool.ancestors
  {
    exists u :: u in Remaining(pool, f.inBlock, t) && u in pool.entries && !f.Welcome(pool.entries[u])
  }

  /** What rounding a size up to whole bytes, or pricing its sigops, adds to a weight. */
  ghost function Gaps(pool: Pool): TxId -> int {
    (t: TxId) => WITNESS_SCALE_FACTOR * pool.Sizes()(t) - pool.Weights()(t)
  }

  /** What t would weigh, and the gaps of its ancestors in the block, which were won back when they went in. */
  ghost function Claim(pool: Pool, inBlock: set<TxId>, t: TxId): int
    requires t in pool.ancestors
  {
    WITNESS_SCALE_FACTOR * Sum(Remaining(pool, inBlock, t), pool.Sizes()) + Sum(pool.ancestors[t] * inBlock, Gaps(pool))
  }

  /**
   * Why a transaction stays out: its remaining package is not acceptable, has too many sigops, or is too
   * heavy, give or take the gaps of its ancestors in the block.
   */
  ghost predicate Rejected(pool: Pool, f: Fill, t: TxId)
    requires t in pool.ancestors
  {
    || Unwelcome(pool, f, t)
    || f.sigOps + Sum(Remaining(pool, f.inBlock, t), pool.SigOps()) >= MAX_BLOCK_SIGOPS_COST
    || f.weight + Claim(pool, f.inBlock, t) >= f.maxWeight
  }

  lemma {:induction false} SumGaps(pool: Pool, s: set<TxId>)
    ensures 0 <= Sum(s, Gaps(pool)) == WITNESS_SCALE_FACTOR * Sum(s, pool.Sizes()) - Sum(s, pool.Weights())
    decreases s
  {
    if s != {} {
      var x :| x in s;
      SumTake(s, Gaps(pool), x);
      SumTake(s, pool.Sizes(), x);
      SumTake(s, pool.Weights(), x);
      SumGaps(pool, s - {x});
    }
  }

  /** What is left of a package after some of it went into the block. */
  lemma RemainingSplit(pool: Pool, inBlock: set<TxId>, package: set<TxId>, t: TxId)
    requires t in pool.ancestors && package !! inBlock && t !in package
    ensures var due, gone := Remaining(pool, inBlock, t), pool.ancestors[t] * package;
            && gone <= due && Remaining(pool, inBlock + package, t) == due - gone
            && pool.ancestors[t] * (inBlock + package) == pool.ancestors[t] * inBlock + gone && pool.ancestors[t] * inBlock !! gone
  {}

  /** The block gains at least as much weight as the claim of t goes down. */
  lemma ClaimStands(pool: Pool, inBlock: set<TxId>, package: set<TxId>, t: TxId)
    requires t in pool.ancestors && package !! inBlock && t !in package
    ensures Claim(pool, inBlock, t) <= Sum(package, pool.Weights()) + Claim(pool, inBlock + package, t)
  {
    RemainingSplit(pool, inBlock, package, t);
    var due, gone := Remaining(pool, inBlock, t), pool.ancestors[t] * package;
    SumSplit(due, gone, pool.Sizes());
    SumSplit(package, gone, pool.Weights());
    SumNonNegative(package - gone, pool.Weights());
    DisjointSum(pool.ancestors[t] * inBlock, gone, Gaps(pool));
    SumGaps(pool, gone);
  }

  lemma SigOpsStand(pool: Pool, inBlock: set<TxId>, package: set<TxId>, t: TxId)
    requires t in pool.ancestors && package !! inBlock && t !in package
    ensures Sum(Remaining(pool, inBlock, t), pool.SigOps()) <=
            Sum(package, pool.SigOps()) + Sum(Remaining(pool, inBlock + package, t), pool.SigOps())
  {
    RemainingSplit(pool, inBlock, package, t);
    var due, gone := Remaining(pool, inBlock, t), pool.ancestors[t] * package;
    SumSplit(due, gone, pool.SigOps());
    SumSplit(package, gone, pool.SigOps());
    SumNonNegative(package - gone, pool.SigOps());
  }

  /** A reason for staying out holds for good. */
  lemma StillRejected(pool: Pool, f: Fill, f': Fill, package: set<TxId>, t: TxId)
    requires t in pool.ancestors && f.Grows(pool, f', package) && t !in f'.inBlock && Rejected(pool, f, t)
    ensures Rejected(pool, f', t)
  {
    hide Remaining, Claim;
    ClaimStands(pool, f.inBlock, package, t);
    SigOpsStand(pool, f.inBlock, package, t);
    if Unwelcome(pool, f, t) {
      StillUnwelcome(pool, f, f', package, t);
    }
  }

  lemma StillUnwelcome(pool: Pool, f: Fill, f': Fill, package: set<TxId>, t: TxId)
    requires t in pool.ancestors && f.Grows(pool, f', package) && Unwelcome(pool, f, t)
    ensures Unwelcome(pool, f', t)
  {
    var u :| u in Remaining(pool, f.inBlock, t) && u in pool.entries && !f.Welcome(pool.entries[u]);
    assert u in Remaining(pool, f'.inBlock, t);
  }

  /** A package that does not fit by its tracked totals, evaluated for the first time. */
  lemma TooBig(pool: Pool, f: Fill, t: TxId, totals: Totals)
    requires Tracked(pool, f.inBlock, false, t, totals) && !f.Room(totals.size, totals.sigOps)
    ensures Rejected(pool, f, t)
  {
    var l :| Books(pool, f.inBlock, false, t, totals, l);
    SumGaps(pool, pool.ancestors[t] * f.inBlock);
  }

  /** Everything outside the block that is no candidate any more, or failed once, has a reason to stay out. */
  ghost predicate NoneForgotten(pool: Pool, f: Fill, modified: ModifiedSet, failed: set<TxId>, rest: seq<TxId>)
    requires pool.Valid()
  {
    forall t :: t in pool.entries && t !in f.inBlock && (t in failed || (t !in modified && t !in rest)) ==> Rejected(pool, f, t)
  }

  lemma ForgottenNone(pool: Pool, f: Fill, order: seq<TxId>)
    requires pool.Valid() && Elements(order) == pool.entries.Keys
    ensures NoneForgotten(pool, f, map[], {}, order)
  {
    hide Rejected;
    forall t | t in pool.entries
      ensures t in order
    {
      assert t in Elements(order);
    }
  }

  /** Moving past a transaction that is dealt with. */
  lemma Advanced(pool: Pool, f: Fill, modified: ModifiedSet, failed: set<TxId>, order: seq<TxId>, mi: nat)
    requires pool.Valid() && mi < |order| && order[mi] in pool.entries
    requires NoneForgotten(pool, f, modified, failed, order[mi..])
    requires order[mi] in modified || order[mi] in f.inBlock || order[mi] in failed || Rejected(pool, f, order[mi])
    ensures NoneForgotten(pool, f, modified, failed, order[mi + 1..])
  {
    hide Rejected;
    assert order[mi..] == [order[mi]] + order[mi + 1..];
  }

  /** Turning down a transaction of the table. */
  lemma TurnedDown(pool: Pool, f: Fill, modified: ModifiedSet, failed: set<TxId>, rest: seq<TxId>, t: TxId)
    requires pool.Valid() && t in pool.entries
    requires NoneForgotten(pool, f, modified, failed, rest) && Rejected(pool, f, t)
    ensures NoneForgotten(pool, f, modified - {t}, failed + {t}, rest)
  {
    hide Rejected;
  }

  /** Including a package leaves every reason standing, and no candidate drops out but by entering the block. */
  lemma NoneForgottenGrows(pool: Pool, f: Fill, f': Fill, package: set<TxId>, start: ModifiedSet, modified: ModifiedSet,
                           failed: set<TxId>, rest: seq<TxId>)
    requires pool.Valid() && f.Grows(pool, f', package) && Reached(pool, package, package, start - package, modified)
    requires NoneForgotten(pool, f, start, failed, rest)
    ensures NoneForgotten(pool, f', modified, failed, rest)
  {
    hide Rejected, Fill.Grows;
    forall t | t in pool.entries && t !in f'.inBlock && (t in failed || (t !in modified && t !in rest))
      ensures Rejected(pool, f', t)
    {
      assert f'.inBlock == f.inBlock + package by { GrownBlock(pool, f, f', package); }
      assert t in start ==> t in start - package;
      StillRejected(pool, f, f', package, t);
    }
  }

  lemma GrownBlock(pool: Pool, f: Fill, f': Fill, package: set<TxId>)
    requires f.Grows(pool, f', package)
    ensures f'.inBlock == f.inBlock + package
  {}

  // ----- the best candidate ----------------------------------------------------------------------

  /** The pool's ancestor_score index. */
  ghost predicate Sorted(pool: Pool, order: seq<TxId>) {
    && (forall i :: 0 <= i < |order| ==> order[i] in pool.entries && order[i] in pool.cached)
    && (forall i, j :: 0 <= i < j < |order| ==> Better(pool, order[i], pool.cached[order[i]], order[j], pool.cached[order[j]]))
  }

  /** No candidate of the table or of the rest of the index is better than t. */
  ghost predicate IsBest(pool: Pool, inBlock: set<TxId>, modified: ModifiedSet, failed: set<TxId>, rest: seq<TxId>, t: TxId, totals: Totals) {
    && t in pool.entries
    && (forall u :: u in modified && u in pool.entries ==> !Better(pool, u, modified[u], t, totals))
    && (forall u :: u in rest && u in pool.entries && u in pool.cached && u !in modified && u !in inBlock && u !in failed ==>
                      !Better(pool, u, pool.cached[u], t, totals))
  }

  /** What is not worse than the next of the index is not worse than the rest of it. */
  lemma RestWorse(pool: Pool, order: seq<TxId>, mi: nat, t: TxId, totals: Totals)
    requires Sorted(pool, order) && mi < |order| && t in pool.entries
    requires !Better(pool, order[mi], pool.cached[order[mi]], t, totals)
    ensures forall u :: u in order[mi..] ==> u in pool.entries && u in pool.cached && !Better(pool, u, pool.cached[u], t, totals)
  {
    hide Better;
    forall u | u in order[mi..]
      ensures u in pool.entries && u in pool.cached && !Better(pool, u, pool.cached[u], t, totals)
    {
      var j :| mi <= j < |order| && order[j] == u;
      if j > mi && Better(pool, u, pool.cached[u], t, totals) {
        BetterTransitive(pool, order[mi], pool.cached[order[mi]], u, pool.cached[u], t, totals);
      }
    }
  }

  /** The index holds every entry once. */
  lemma SortedDistinct(pool: Pool, order: seq<TxId>)
    requires Sorted(pool, order)
    ensures Distinct(order)
  {
    hide Better;
    forall i, j | 0 <= i < j < |order|
      ensures order[i] != order[j]
    {
      BetterStrict(pool, order[i], pool.cached[order[i]], order[j], pool.cached[order[j]]);
    }
  }

  /** A candidate that never failed and is not better. */
  ghost predicate Beaten(pool: Pool, inBlock: set<TxId>, u: TxId, t: TxId, totals: Totals)
    requires t in pool.entries
  {
    u in pool.entries && exists uTotals :: Tracked(pool, inBlock, false, u, uTotals) && !Better(pool, u, uTotals, t, totals)
  }

  /** Whatever is left out has a reason to stay out or is not better than the best candidate. */
  lemma RestBeaten(pool: Pool, f: Fill, modified: ModifiedSet, failed: set<TxId>, rest: seq<TxId>, t: TxId, totals: Totals)
    requires pool.Valid() && SideTableOk(pool, f.inBlock, failed, modified) && NoneForgotten(pool, f, modified, failed, rest)
    requires IsBest(pool, f.inBlock, modified, failed, rest, t, totals)
    ensures forall u :: u in pool.entries && u !in f.inBlock ==> Rejected(pool, f, u) || Beaten(pool, f.inBlock, u, t, totals)
  {
    hide Rejected, Tracked, Better, Pool.ValidEntry, Pool.CachedOk;
    forall u | u in pool.entries && u !in f.inBlock
      ensures Rejected(pool, f, u) || Beaten(pool, f.inBlock, u, t, totals)
    {
      if u !in failed && u in modified {
        assert ModifiedOk(pool, f.inBlock, failed, u, modified[u]);
      } else if u !in failed && u in rest {
        Untouched(pool, f.inBlock, false, u);
      }
    }
  }

  /** t with its tracked total, and no better candidate: whatever else is left out has a reason to stay out or is not better. */
  ghost predicate Chosen(pool: Pool, f: Fill, t: TxId, totals: Totals)
    requires pool.Valid()
  {
    && t in pool.entries && Tracked(pool, f.inBlock, Rejected(pool, f, t), t, totals)
    && (forall u :: u in pool.entries && u !in f.inBlock ==> Rejected(pool, f, u) || Beaten(pool, f.inBlock, u, t, totals))
  }

  /** A package that was included, and the block it was added to. */
  datatype Pick = Pick(before: Fill, t: TxId, totals: Totals)

  /** The best candidate, paying the minimum, fitting, and with an acceptable package. */
  ghost predicate GoodPick(pool: Pool, minFeeRate: int, p: Pick)
    requires pool.Valid()
  {
    && Chosen(pool, p.before, p.t, p.totals)
    && 0 <= p.totals.size && Pays(minFeeRate, p.totals.size, p.totals.modFees)
    && p.before.Room(p.totals.size, p.totals.sigOps) && !Unwelcome(pool, p.before, p.t)
  }

  /** The block was built from nothing by good picks. */
  ghost predicate Greedy(pool: Pool, minFeeRate: int, picks: seq<Pick>, f: Fill)
    requires pool.Valid()
  {
    if picks == [] then f.inBlock == {} else
      var p := picks[|picks| - 1];
      && GoodPick(pool, minFeeRate, p) && p.before.Grows(pool, f, Remaining(pool, p.before.inBlock, p.t))
      && Greedy(pool, minFeeRate, picks[..|picks| - 1], p.before)
  }

  /**
   * What a round does with its best candidate: it is included exactly if it pays, fits and is acceptable. A package that
   * pays but does not fit counts as a failure. The selection stops when nothing pays, or after more than a thousand
   * failures in a row when the block is within 4000 of its limit.
   */
  ghost predicate Decided(pool: Pool, minFeeRate: int, p: Pick, failuresBefore: nat, selected: bool, failures: nat, stop: bool) {
    && 0 <= p.totals.size && p.t in pool.ancestors
    && var pays, fits := Pays(minFeeRate, p.totals.size, p.totals.modFees), p.before.Room(p.totals.size, p.totals.sigOps);
    && (selected <==> pays && fits && !Unwelcome(pool, p.before, p.t))
    && failures == (if selected then 0 else if pays && !fits then failuresBefore + 1 else failuresBefore)
    && (stop <==> !pays || (!fits && failures > 1000 && p.before.weight > p.before.maxWeight - 4000))
  }

  /** How many totals are corrected for a pick, and for all picks. */
  ghost function PickUpdates(pool: Pool, p: Pick): int {
    if p.t !in pool.ancestors then 0 else
      var package := Remaining(pool, p.before.inBlock, p.t);
      Updates(pool, package, package)
  }

  ghost function AllUpdates(pool: Pool, picks: seq<Pick>): int {
    if picks == [] then 0 else AllUpdates(pool, picks[..|picks| - 1]) + PickUpdates(pool, picks[|picks| - 1])
  }

  lemma UpdatesStart(pool: Pool)
    ensures AllUpdates(pool, []) == 0
  {}

  lemma UpdatesNext(pool: Pool, picks: seq<Pick>, p: Pick)
    ensures AllUpdates(pool, picks + [p]) == AllUpdates(pool, picks) + PickUpdates(pool, p)
  {
    assert (picks + [p])[..|picks|] == picks;
  }

  lemma GreedyNone(pool: Pool, minFeeRate: int, f: Fill)
    requires pool.Valid() && f.inBlock == {}
    ensures Greedy(pool, minFeeRate, [], f)
  {}

  lemma GreedyExtends(pool: Pool, minFeeRate: int, picks: seq<Pick>, p: Pick, f: Fill)
    requires pool.Valid() && Greedy(pool, minFeeRate, picks, p.before) && GoodPick(pool, minFeeRate, p)
    requires p.before.Grows(pool, f, Remaining(pool, p.before.inBlock, p.t))
    ensures Greedy(pool, minFeeRate, picks + [p], f)
  {
    hide GoodPick, Fill.Grows;
    assert (picks + [p])[..|picks|] == picks;
  }

  /** Every package that went in paid the minimum rate to within one satoshi. */
  lemma {:induction false} PicksPay(pool: Pool, minFeeRate: int, picks: seq<Pick>, f: Fill, i: nat)
    requires pool.Valid() && Greedy(pool, minFeeRate, picks, f) && i < |picks|
    ensures 1000 * picks[i].totals.modFees > minFeeRate * picks[i].totals.size - 1000
    ensures minFeeRate > 0 ==> picks[i].totals.modFees > 0 || picks[i].totals.size == 0
    decreases picks
  {
    hide Chosen, Fill.Grows, Fill.Room, Unwelcome, Pool.Valid;
    var last := |picks| - 1;
    var p := picks[last];
    if i == last {
      PaysRate(minFeeRate, p.totals.size, p.totals.modFees);
    } else {
      PicksPay(pool, minFeeRate, picks[..last], p.before, i);
    }
  }

  // ----- repeated failures ------------------------------------------------------------------------

  /** A transaction whose tracked package does not fit the block as it is. */
  ghost predicate Missed(pool: Pool, f: Fill, t: TxId) {
    && t in pool.entries && t in pool.ancestors && Rejected(pool, f, t)
    && exists totals :: Tracked(pool, f.inBlock, true, t, totals) && !f.Room(totals.size, totals.sigOps)
  }

  /** The failures since the last package went in: different transactions, none of them a candidate any more. */
  ghost predicate MissesOk(pool: Pool, f: Fill, modified: ModifiedSet, failed: set<TxId>, rest: seq<TxId>, misses: set<TxId>) {
    forall t :: t in misses ==> Missed(pool, f, t) && t !in modified && (t in rest ==> t in failed)
  }

  lemma MissedAgain(pool: Pool, f: Fill, failed: bool, t: TxId, totals: Totals)
    requires Tracked(pool, f.inBlock, failed, t, totals) && !f.Room(totals.size, totals.sigOps) && Rejected(pool, f, t)
    ensures Missed(pool, f, t)
  {
    var l :| Books(pool, f.inBlock, failed, t, totals, l);
    assert Books(pool, f.inBlock, true, t, totals, l);
  }

  lemma InOrder(order: seq<TxId>, mi: nat, keys: set<TxId>)
    requires Elements(order) == keys && mi < |order|
    ensures order[mi] in keys
  {
    assert order[mi] in Elements(order);
  }

  /** How the selection ended. */
  datatype Outcome =
    | Exhausted
    | BelowMinimum(t: TxId, totals: Totals)
    | NearlyFull(misses: set<TxId>)

  // ----- the block under construction ------------------------------------------------------------

  class BlockAssembler {
    const pool: Pool
    /** The pool's ancestor_score index: every entry once, the best first. */
    const order: seq<TxId>
    const blockMinFeeRate: int
    const nBlockMaxWeight: nat

    var fIncludeWitness: bool
    /** The block's transactions after the coinbase, and the template's fee and sigop vectors. */
    var vtx: seq<TxId>
    var vTxFees: seq<int>
    var vTxSigOpsCost: seq<int>
    var nBlockWeight: int
    var nBlockTx: nat
    var nBlockSigOpsCost: int
    var nFees: int
    var inBlock: set<TxId>

    /** The pool and its index, and the weight limit that the constructor has clamped. */
    ghost predicate ValidPool() {
      && pool.Valid() && Sorted(pool, order) && Elements(order) == pool.entries.Keys
      && 4000 <= nBlockMaxWeight <= MAX_BLOCK_WEIGHT - 4000
    }

    /** What holds after every AddToBlock: a closed, ordered, duplicate-free block with exact totals. */
    ghost predicate Valid()
      reads this
    {
      && ValidPool()
      && BodyOk(pool, vtx, inBlock)
      && CountersOk(pool, vtx, inBlock, nBlockTx, nBlockWeight, nBlockSigOpsCost)
      && FeesOk(pool, vtx, vTxFees, vTxSigOpsCost, nFees)
    }

    ghost predicate WithinLimits()
      reads this
    {
      && nBlockWeight <= nBlockMaxWeight && (inBlock == {} || nBlockWeight < nBlockMaxWeight)
      && nBlockSigOpsCost < MAX_BLOCK_SIGOPS_COST
      && (forall t :: t in inBlock && t in pool.entries ==> Acceptable(t))
    }

    constructor (pool: Pool, order: seq<TxId>, blockMinFeeRate: int, maxWeight: nat)
      requires pool.Valid() && Sorted(pool, order) && Elements(order) == pool.entries.Keys
      ensures ValidPool() && this.pool == pool && this.order == order && this.blockMinFeeRate == blockMinFeeRate
      ensures maxWeight <= 4000 ==> nBlockMaxWeight == 4000
      ensures 4000 <= maxWeight <= MAX_BLOCK_WEIGHT - 4000 ==> nBlockMaxWeight == maxWeight
      ensures maxWeight >= MAX_BLOCK_WEIGHT - 4000 ==> nBlockMaxWeight == MAX_BLOCK_WEIGHT - 4000
    {
      this.pool, this.order, this.blockMinFeeRate := pool, order, blockMinFeeRate;
      var capped := if maxWeight < MAX_BLOCK_WEIGHT - 4000 then maxWeight else MAX_BLOCK_WEIGHT - 4000;
      nBlockMaxWeight := if capped < 4000 then 4000 else capped;
      vtx, vTxFees, vTxSigOpsCost := [], [], [];
      nBlockWeight, nBlockTx, nBlockSigOpsCost, nFees, inBlock := 0, 0, 0, 0, {};
      fIncludeWitness := false;
    }

    /** resetBlock plus the dummy coinbase slot of CreateNewBlock. */
    method ResetBlock()
      requires ValidPool()
      modifies this
      ensures Valid() && WithinLimits() && inBlock == {} && !fIncludeWitness && vTxFees == vTxSigOpsCost == [-1]
    {
      inBlock, vtx := {}, [];
      nBlockWeight, nBlockSigOpsCost, fIncludeWitness := 4000, 400, false;
      nBlockTx, nFees := 0, 0;
      vTxFees, vTxSigOpsCost := [-1], [-1];
      assert vTxFees[..0] == [];
    }

    /** Would a package of this size and sigop cost fit? */
    predicate TestPackage(packageSize: int, packageSigOpsCost: int)
      reads this
    {
      && nBlockWeight + WITNESS_SCALE_FACTOR * packageSize < nBlockMaxWeight
      && nBlockSigOpsCost + packageSigOpsCost < MAX_BLOCK_SIGOPS_COST
    }

    predicate Acceptable(t: TxId)
      requires t in pool.entries
      reads this`fIncludeWitness
    {
      pool.entries[t].isFinal && (fIncludeWitness || !pool.entries[t].hasWitness)
    }

    /** Finality and premature-witness check of each transaction in a package. */
    method TestPackageTransactions(package: set<TxId>) returns (ok: bool)
      requires package <= pool.entries.Keys
      ensures ok <==> forall t :: t in package ==> Acceptable(t)
    {
      var todo := package;
      while todo != {}
        invariant todo <= package
        invariant forall t :: t in package && t !in todo ==> Acceptable(t)
        decreases todo
      {
        var t :| t in todo;
        if !Acceptable(t) {
          return false;
        }
        todo := todo - {t};
      }
      return true;
    }

    /** onlyUnconfirmed: drop what is already in the block. */
    method OnlyUnconfirmed(testSet: set<TxId>) returns (unconfirmed: set<TxId>)
      ensures unconfirmed == testSet - inBlock
    {
      unconfirmed := testSet;
      var todo := testSet;
      while todo != {}
        invariant todo <= testSet
        invariant unconfirmed == testSet - (inBlock - todo)
        decreases todo
      {
        var t :| t in todo;
        if t in inBlock {
          unconfirmed := unconfirmed - {t};
        }
        todo := todo - {t};
      }
    }

    /** Has the entry been dealt with, or is its cached state in mapTx stale? */
    predicate SkipMapTxEntry(t: TxId, modified: ModifiedSet, failed: set<TxId>)
      reads this
    {
      t in modified || t in inBlock || t in failed
    }

    method AddToBlock(t: TxId)
      requires Valid() && t in pool.entries && t in pool.ancestors && t !in inBlock && pool.ancestors[t] <= inBlock
      modifies this
      ensures Valid() && vtx == old(vtx) + [t] && inBlock == old(inBlock) + {t}
      ensures fIncludeWitness == old(fIncludeWitness)
      ensures nBlockWeight >= old(nBlockWeight) && nBlockSigOpsCost >= old(nBlockSigOpsCost)
    {
      hide BodyOk, CountersOk, FeesOk;
      var e := pool.entries[t];
      BodyExtends(pool, vtx, inBlock, t);
      CountersExtend(pool, vtx, inBlock, nBlockTx, nBlockWeight, nBlockSigOpsCost, t);
      FeesExtend(pool, vtx, vTxFees, vTxSigOpsCost, nFees, t);
      vtx := vtx + [t];
      vTxFees := vTxFees + [e.fee];
      vTxSigOpsCost := vTxSigOpsCost + [e.sigOps];
      nBlockWeight := nBlockWeight + e.weight;
      nBlockTx := nBlockTx + 1;
      nBlockSigOpsCost := nBlockSigOpsCost + e.sigOps;
      nFees := nFees + e.fee;
      inBlock := inBlock + {t};
    }

    /** The inner loop: add a sorted package and drop its members from the side table. */
    method AddPackage(ghost package: set<TxId>, sorted: seq<TxId>, start: ModifiedSet) returns (modified: ModifiedSet)
      requires Valid() && package <= pool.entries.Keys && package <= pool.ancestors.Keys && package !! inBlock
      requires Distinct(sorted) && Elements(sorted) == package
      requires forall i :: 0 <= i < |sorted| ==> sorted[i] in package && pool.ancestors[sorted[i]] <= inBlock + Elements(sorted[..i])
      modifies this
      ensures Valid() && vtx == old(vtx) + sorted && inBlock == old(inBlock) + package
      ensures fIncludeWitness == old(fIncludeWitness)
      ensures nBlockWeight >= old(nBlockWeight) && nBlockSigOpsCost >= old(nBlockSigOpsCost)
      ensures modified == start - package
    {
      hide BodyOk, CountersOk, FeesOk, ValidPool, Distinct, Elements;
      modified := start;
      ElementsNone(sorted);
      for i := 0 to |sorted|
        invariant Valid() && vtx == old(vtx) + sorted[..i] && inBlock == old(inBlock) + Elements(sorted[..i])
        invariant fIncludeWitness == old(fIncludeWitness)
        invariant nBlockWeight >= old(nBlockWeight) && nBlockSigOpsCost >= old(nBlockSigOpsCost)
        invariant modified == start - Elements(sorted[..i])
      {
        NotBefore(sorted, i);
        AddToBlock(sorted[i]);
        modified := modified - {sorted[i]};
        assert sorted[..i + 1] == sorted[..i] + [sorted[i]];
        ElementsExtend(sorted[..i], sorted[i]);
      }
      assert sorted[..|sorted|] == sorted;
    }

    /** A package that passed TestPackage on covering totals stays within the block's limits. */
    lemma PackageFits(package: set<TxId>, totals: Totals)
      requires Valid() && package !! inBlock
      requires totals.size >= pool.TotalsOf(package).size && totals.sigOps >= pool.TotalsOf(package).sigOps
      requires TestPackage(totals.size, totals.sigOps)
      ensures 4000 + Sum(inBlock + package, pool.Weights()) < nBlockMaxWeight
      ensures 400 + Sum(inBlock + package, pool.SigOps()) < MAX_BLOCK_SIGOPS_COST
    {
      SumBound(package, pool.Weights(), WITNESS_SCALE_FACTOR, pool.Sizes());
      SumSplit(inBlock + package, package, pool.Weights());
      SumSplit(inBlock + package, package, pool.SigOps());
      assert inBlock + package - package == inBlock;
    }

    /** The next transaction to evaluate, and its ancestor totals. */
    method ChooseNext(modified: ModifiedSet, ghost failed: set<TxId>, mi: nat)
      returns (t: TxId, totals: Totals, usingModified: bool, mi': nat)
      requires Valid() && SideTableOk(pool, inBlock, failed, modified) && mi <= |order| && (mi < |order| || modified != map[])
      requires NoneForgotten(pool, Now(), modified, failed, order[mi..])
      requires mi < |order| ==> !SkipMapTxEntry(order[mi], modified, failed)
      ensures ModifiedOk(pool, inBlock, failed, t, totals) && totals.size >= 0
      ensures if usingModified then mi' == mi && t in modified && totals == modified[t]
              else mi < |order| && mi' == mi + 1 && t == order[mi] && totals == pool.cached[t]
      ensures Chosen(pool, Now(), t, totals)
    {
      hide BodyOk, CountersOk, FeesOk, Sorted, Pool.ValidEntry, Better, Tracked, Touched, NoneForgotten, Rejected, Beaten;
      forall u | u in modified
        ensures u in pool.entries
      {
        TrackedInPool(pool, inBlock, failed, u, modified[u]);
      }
      if mi == |order| {
        t := BestModified(pool, modified);
        totals, usingModified, mi' := modified[t], true, mi;
        BestBeatsAll(pool, modified, t, t, totals);
        assert order[mi..] == [];
      } else {
        assert order[mi] in Elements(order);
        t, usingModified, mi' := order[mi], false, mi + 1;
        totals := pool.cached[t];
        Untouched(pool, inBlock, t in failed, t);
        BetterStrict(pool, t, totals, t, totals);
        if modified != map[] {
          var best := BestModified(pool, modified);
          BestBeatsAll(pool, modified, best, t, totals);
          BetterStrict(pool, best, modified[best], t, totals);
          if Better(pool, best, modified[best], t, totals) {
            t, totals, usingModified, mi' := best, modified[best], true, mi;
          }
        }
        RestWorse(pool, order, mi, t, totals);
      }
      Covers(pool, inBlock, t in failed, t, totals);
      FailedRejected(pool, Now(), failed, modified, order[mi..], t, totals);
      RestBeaten(pool, Now(), modified, failed, order[mi..], t, totals);
    }

    /** Include the package of t: its ancestors outside the block, then t itself. */
    method IncludePackage(t: TxId, ancestors: set<TxId>, ghost totals: Totals, start: ModifiedSet, ghost failed: set<TxId>)
      returns (modified: ModifiedSet, nUpdated: nat)
      requires Valid() && SideTableOk(pool, inBlock, failed, start) && ModifiedOk(pool, inBlock, failed, t, totals)
      requires ancestors == Remaining(pool, inBlock, t) && TestPackage(totals.size, totals.sigOps)
      modifies this
      ensures Valid() && inBlock == old(inBlock) + ancestors
      ensures nBlockWeight < nBlockMaxWeight && nBlockSigOpsCost < MAX_BLOCK_SIGOPS_COST
      ensures fIncludeWitness == old(fIncludeWitness) && old(vtx) <= vtx
      ensures nBlockWeight >= old(nBlockWeight) && nBlockSigOpsCost >= old(nBlockSigOpsCost)
      ensures SideTableOk(pool, inBlock, failed, modified)
      ensures Reached(pool, ancestors, ancestors, start - ancestors, modified)
      ensures nUpdated == Updates(pool, ancestors, ancestors)
    {
      hide BodyOk, FeesOk, SideTableOk, Halfway, Closed, Reached, Tracked, Sorted, Updates;
      TrackedInPool(pool, inBlock, failed, t, totals);
      Covers(pool, inBlock, t in failed, t, totals);
      PackageFits(ancestors, totals);
      BodyClosed(pool, vtx, inBlock);
      PackageInPool(pool, inBlock, t);
      var sorted := SortForBlock(pool, ancestors);
      PackageOrdered(pool, inBlock, t, sorted);
      modified := AddPackage(ancestors, sorted, start);
      DroppedFromTable(pool, old(inBlock), failed, ancestors, start, modified);
      modified, nUpdated := UpdatePackagesForAdded(pool, old(inBlock), failed, ancestors, modified);
    }

    ghost function Now(): Fill
      reads this`inBlock, this`nBlockWeight, this`nBlockSigOpsCost, this`fIncludeWitness
    {
      Fill(inBlock, nBlockWeight, nBlockSigOpsCost, nBlockMaxWeight, fIncludeWitness)
    }

    /**
     * The end of the selection. Either nothing is left that has no reason to stay out. Or the best candidate
     * pays less than the minimum by its tracked totals. Or more than a thousand different packages in a row
     * did not fit a block that is nearly full.
     */
    ghost predicate Ended(outcome: Outcome)
      requires pool.Valid()
      reads this`inBlock, this`nBlockWeight, this`nBlockSigOpsCost, this`fIncludeWitness
    {
      match outcome
      case Exhausted => forall t :: t in pool.entries && t !in inBlock ==> Rejected(pool, Now(), t)
      case BelowMinimum(t, totals) =>
        Chosen(pool, Now(), t, totals) && 0 <= totals.size && !Pays(blockMinFeeRate, totals.size, totals.modFees)
      case NearlyFull(misses) =>
        && nBlockWeight > nBlockMaxWeight - 4000
        && |misses| > MAX_CONSECUTIVE_FAILURES && (forall t :: t in misses ==> Missed(pool, Now(), t))
    }

    /** A transaction was turned down: take it out of the table, or move past it. */
    method TurnDown(t: TxId, usingModified: bool, start: ModifiedSet, failedBefore: set<TxId>, ghost mi: nat, ghost mi': nat,
                    ghost misses: set<TxId>)
      returns (modified: ModifiedSet, failed: set<TxId>)
      requires ValidPool() && SideTableOk(pool, inBlock, failedBefore, start) && t in pool.entries && mi <= |order|
      requires NoneForgotten(pool, Now(), start, failedBefore, order[mi..]) && MissesOk(pool, Now(), start, failedBefore, order[mi..], misses)
      requires Rejected(pool, Now(), t)
      requires if usingModified then mi' == mi && t in start else mi < |order| && mi' == mi + 1 && t == order[mi] && t !in failedBefore && t !in start
      ensures SideTableOk(pool, inBlock, failed, modified) && mi' <= |order|
      ensures NoneForgotten(pool, Now(), modified, failed, order[mi'..])
      ensures MissesOk(pool, Now(), modified, failed, order[mi'..], misses) && t !in misses
      ensures Missed(pool, Now(), t) ==> MissesOk(pool, Now(), modified, failed, order[mi'..], misses + {t})
      ensures modified == if usingModified then start - {t} else start
    {
      hide SideTableOk, NoneForgotten, Rejected, Missed, Sorted;
      SortedDistinct(pool, order);
      modified, failed := start, failedBefore;
      if usingModified {
        FailedKept(pool, inBlock, failed, modified, t);
        TurnedDown(pool, Now(), modified, failed, order[mi..], t);
        modified, failed := modified - {t}, failed + {t};
      } else {
        Advanced(pool, Now(), modified, failed, order, mi);
        assert order[mi..] == [t] + order[mi + 1..];
      }
    }

    /**
     * One round of the selection after skipping: evaluate the best candidate and include its package, turn
     * it down, or stop. Something is always used up.
     */
    method SelectNext(start: ModifiedSet, failedBefore: set<TxId>, mi: nat, nConsecutiveFailed: nat, ghost misses: set<TxId>)
      returns (modified: ModifiedSet, failed: set<TxId>, mi': nat, nFailed: nat, selected: bool, nUpdated: nat, stop: bool,
               ghost misses': set<TxId>, ghost outcome: Outcome, ghost pick: Pick)
      requires Valid() && WithinLimits() && mi <= |order| && (mi < |order| || start != map[])
      requires SideTableOk(pool, inBlock, failedBefore, start) && NoneForgotten(pool, Now(), start, failedBefore, order[mi..])
      requires mi < |order| ==> !SkipMapTxEntry(order[mi], start, failedBefore)
      requires MissesOk(pool, Now(), start, failedBefore, order[mi..], misses) && |misses| == nConsecutiveFailed
      modifies this
      ensures Valid() && WithinLimits() && fIncludeWitness == old(fIncludeWitness)
      ensures Decided(pool, blockMinFeeRate, pick, nConsecutiveFailed, selected, nFailed, stop)
      ensures nUpdated == if selected then PickUpdates(pool, pick) else 0
      ensures stop ==> Ended(outcome) && !selected
      ensures !stop ==> mi' <= |order| && SideTableOk(pool, inBlock, failed, modified)
      ensures !stop ==> NoneForgotten(pool, Now(), modified, failed, order[mi'..])
      ensures !stop ==> MissesOk(pool, Now(), modified, failed, order[mi'..], misses') && |misses'| == nFailed
      ensures pick.before == old(Now()) && Chosen(pool, pick.before, pick.t, pick.totals)
      ensures if !selected then inBlock == old(inBlock) && Now() == old(Now()) else
                GoodPick(pool, blockMinFeeRate, pick) && pick.before.Grows(pool, Now(), Remaining(pool, old(inBlock), pick.t))
      ensures !stop ==> old(inBlock) < inBlock <= pool.entries.Keys ||
                        (inBlock == old(inBlock) && |order| - mi' + |modified| < |order| - mi + |start|)
    {
      hide BodyOk, CountersOk, FeesOk, SideTableOk, Halfway, Closed, Tracked, Sorted, Elements, Pool.ValidEntry, Pool.TotalsOf, Pool.CachedOk,
        NoneForgotten, MissesOk, Missed, Rejected, Reached, Better, Beaten, Unwelcome, Fill.Grows, FeeFor, Pays, Updates;
      nFailed, selected, nUpdated, stop, outcome := nConsecutiveFailed, false, 0, false, Exhausted;
      modified, failed, misses' := start, failedBefore, misses;
      var t, packageTotals, usingModified, next := ChooseNext(modified, failed, mi);
      mi', pick := next, Pick(Now(), t, packageTotals);
      ghost var totals := packageTotals;
      TrackedInPool(pool, inBlock, failed, t, totals);
      PaysIff(blockMinFeeRate, packageTotals.size, packageTotals.modFees);
      if packageTotals.modFees < FeeFor(blockMinFeeRate, packageTotals.size) {
        stop, outcome := true, BelowMinimum(t, totals);
        return;
      }
      if !TestPackage(packageTotals.size, packageTotals.sigOps) {
        DoesNotFit(pool, Now(), failed, modified, order[mi..], t, totals);
        modified, failed := TurnDown(t, usingModified, modified, failed, mi, mi', misses);
        misses' := misses + {t};
        nFailed := nFailed + 1;
        stop := nFailed > MAX_CONSECUTIVE_FAILURES && nBlockWeight > nBlockMaxWeight - 4000;
        outcome := NearlyFull(misses');
        AllMissed(pool, Now(), modified, failed, order[mi'..], misses');
        return;
      }
      var ancestors := OnlyUnconfirmed(pool.ancestors[t]);
      ancestors := ancestors + {t};
      assert ancestors == Remaining(pool, inBlock, t);
      PackageInPool(pool, inBlock, t);
      var ok := TestPackageTransactions(ancestors);
      if !ok {
        ghost var u :| u in ancestors && !Acceptable(u);
        NotWelcome(pool, Now(), t, u);
        modified, failed := TurnDown(t, usingModified, modified, failed, mi, mi', misses);
        return;
      }
      AllWelcome(pool, Now(), t);
      nFailed, selected, misses' := 0, true, {};
      modified, nUpdated := IncludeAndKeep(t, ancestors, totals, modified, failed, mi, mi', usingModified);
      NoMisses(pool, Now(), modified, failed, order[mi'..]);
    }

    /** Include a package and carry over what is known about the rest. */
    method IncludeAndKeep(t: TxId, ancestors: set<TxId>, ghost totals: Totals, start: ModifiedSet, ghost failed: set<TxId>,
                          ghost mi: nat, ghost mi': nat, ghost usingModified: bool)
      returns (modified: ModifiedSet, nUpdated: nat)
      requires Valid() && WithinLimits() && SideTableOk(pool, inBlock, failed, start) && ModifiedOk(pool, inBlock, failed, t, totals)
      requires t in pool.ancestors && ancestors == Remaining(pool, inBlock, t) && TestPackage(totals.size, totals.sigOps)
      requires forall u :: u in ancestors && u in pool.entries ==> Acceptable(u)
      requires mi <= |order| && NoneForgotten(pool, Now(), start, failed, order[mi..])
      requires if usingModified then mi' == mi else mi < |order| && mi' == mi + 1 && t == order[mi]
      modifies this
      ensures Valid() && WithinLimits() && fIncludeWitness == old(fIncludeWitness)
      ensures SideTableOk(pool, inBlock, failed, modified) && NoneForgotten(pool, Now(), modified, failed, order[mi'..])
      ensures old(inBlock) < inBlock <= pool.entries.Keys && old(Now()).Grows(pool, Now(), ancestors)
      ensures nUpdated == Updates(pool, ancestors, ancestors)
    {
      hide BodyOk, FeesOk, SideTableOk, Tracked, Sorted, Elements, Pool.ValidEntry, Pool.TotalsOf, Pool.CachedOk,
        NoneForgotten, Rejected, Reached, Fill.Grows, Updates;
      ghost var f := Now();
      TrackedInPool(pool, inBlock, failed, t, totals);
      PackageInPool(pool, inBlock, t);
      modified, nUpdated := IncludePackage(t, ancestors, totals, start, failed);
      BlockGrows(pool, f, Now(), ancestors);
      NoneForgottenGrows(pool, f, Now(), ancestors, start, modified, failed, order[mi..]);
      if !usingModified {
        Advanced(pool, Now(), modified, failed, order, mi);
      }
      InPool();
    }

    lemma InPool()
      requires Valid()
      ensures inBlock <= pool.entries.Keys
    {
      BodyClosed(pool, vtx, inBlock);
    }

    /**
     * addPackageTxs: terminates on every pool, never picks a transaction that is already in the block,
     * and every iteration keeps the block valid and within its limits. When it ends, everything left out
     * has a reason to stay out, unless the fee or fullness rule stopped it.
     */
    method AddPackageTxs() returns (nPackagesSelected: nat, nDescendantsUpdated: nat, ghost outcome: Outcome, ghost picks: seq<Pick>)
      requires Valid() && WithinLimits() && inBlock == {}
      modifies this
      ensures Valid() && WithinLimits() && Ended(outcome) && Greedy(pool, blockMinFeeRate, picks, Now())
      ensures nPackagesSelected == |picks| && fIncludeWitness == old(fIncludeWitness)
      ensures nDescendantsUpdated == AllUpdates(pool, picks)
    {
      hide BodyOk, CountersOk, FeesOk, SideTableOk, Halfway, Closed, Tracked, Sorted, Pool.ValidEntry, Pool.TotalsOf, Pool.CachedOk,
        NoneForgotten, MissesOk, Missed, Rejected, Reached, Elements, Ended, Greedy, GoodPick, Chosen, Fill.Grows, PickUpdates,
        Decided, AllUpdates;
      UpdatesStart(pool);
      nPackagesSelected, nDescendantsUpdated, picks := 0, 0, [];
      GreedyNone(pool, blockMinFeeRate, Now());
      EmptyTable(pool);
      ForgottenNone(pool, Now(), order);
      var none: ModifiedSet := map[];
      var modified, n := UpdatePackagesForAdded(pool, {}, {}, inBlock, none);
      assert {} + inBlock == inBlock && order[0..] == order;
      StillNone(pool, Now(), modified, order);
      var failed: set<TxId> := {};
      ghost var misses: set<TxId> := {};
      NoMisses(pool, Now(), modified, failed, order);
      var mi: nat, nConsecutiveFailed: nat := 0, 0;
      while mi < |order| || modified != map[]
        invariant Valid() && WithinLimits() && mi <= |order| && fIncludeWitness == old(fIncludeWitness)
        invariant SideTableOk(pool, inBlock, failed, modified)
        invariant NoneForgotten(pool, Now(), modified, failed, order[mi..])
        invariant MissesOk(pool, Now(), modified, failed, order[mi..], misses) && |misses| == nConsecutiveFailed
        invariant Greedy(pool, blockMinFeeRate, picks, Now()) && nPackagesSelected == |picks| && nDescendantsUpdated == AllUpdates(pool, picks)
        decreases pool.entries.Keys - inBlock, |order| - mi + |modified|
      {
        if mi < |order| && SkipMapTxEntry(order[mi], modified, failed) {
          InOrder(order, mi, pool.entries.Keys);
          Advanced(pool, Now(), modified, failed, order, mi);
          FewerLeft(pool, Now(), modified, failed, order, mi, misses);
          mi := mi + 1;
          continue;
        }
        var stop, selected;
        ghost var pick;
        modified, failed, mi, nConsecutiveFailed, selected, n, stop, misses, outcome, pick :=
          SelectNext(modified, failed, mi, nConsecutiveFailed, misses);
        if stop {
          return;
        }
        if selected {
          GreedyExtends(pool, blockMinFeeRate, picks, pick, Now());
          UpdatesNext(pool, picks, pick);
          picks := picks + [pick];
          nPackagesSelected := nPackagesSelected + 1;
        }
        nDescendantsUpdated := nDescendantsUpdated + n;
      }
      outcome := Exhausted;
      assert order[mi..] == [];
      AllRejected(failed);
    }

    lemma AllRejected(failed: set<TxId>)
      requires Valid() && NoneForgotten(pool, Now(), map[], failed, [])
      ensures Ended(Exhausted)
    {
      hide Rejected, Valid;
    }

    lemma AllAcceptable()
      requires Valid() && WithinLimits()
      ensures forall t :: t in vtx ==> t in pool.entries && Acceptable(t)
    {
      forall t | t in vtx
        ensures t in pool.entries && Acceptable(t)
      {
        assert t in inBlock;
      }
    }

    /** CreateNewBlock: the template's fee vector, coinbase slot included, sums to zero. */
    method CreateNewBlock(includeWitness: bool, subsidy: int) returns (coinbaseValue: int, ghost outcome: Outcome, ghost picks: seq<Pick>)
      requires ValidPool()
      modifies this
      ensures Distinct(vtx) && ParentsFirst(pool, vtx) && inBlock == Elements(vtx)
      ensures nBlockWeight == 4000 + Sum(inBlock, pool.Weights()) <= nBlockMaxWeight && (inBlock == {} || nBlockWeight < nBlockMaxWeight)
      ensures nBlockSigOpsCost == 400 + Sum(inBlock, pool.SigOps()) < MAX_BLOCK_SIGOPS_COST
      ensures forall t :: t in vtx ==> t in pool.entries && pool.entries[t].isFinal && (includeWitness || !pool.entries[t].hasWitness)
      ensures VectorsOk(pool, vtx, vTxFees, vTxSigOpsCost)
      ensures SeqSum(vTxFees) == 0 && coinbaseValue == subsidy - vTxFees[0]
      ensures pool.Valid() && Ended(outcome) && Greedy(pool, blockMinFeeRate, picks, Now()) && Now().withWitness == includeWitness
    {
      hide Distinct, Elements, ParentsFirst, SeqSum, Pool.Valid, Ended, Greedy, FeesOk, VectorsOk, Sorted;
      ResetBlock();
      fIncludeWitness := includeWitness;
      var nPackages, nUpdated;
      nPackages, nUpdated, outcome, picks := AddPackageTxs();
      AllAcceptable();
      coinbaseValue := nFees + subsidy;
      CoinbaseFee(pool, vtx, vTxFees, vTxSigOpsCost, nFees);
      vTxFees := vTxFees[0 := -nFees];
    }
  }

  // ----- ordering within a package -----------------------------------------------------------------

  /** CompareTxIterByAncestorCount */
  predicate CountLess(pool: Pool, a: TxId, b: TxId)
    requires a in pool.ancestors && b in pool.ancestors
  {
    if |pool.ancestors[a]| != |pool.ancestors[b]| then |pool.ancestors[a]| < |pool.ancestors[b]| else a < b
  }

  method LeastByCount(pool: Pool, package: set<TxId>) returns (least: TxId)
    requires package <= pool.ancestors.Keys && package != {}
    ensures least in package
    ensures forall t :: t in package && t != least ==> CountLess(pool, least, t)
  {
    least :| least in package;
    var todo := package - {least};
    while todo != {}
      invariant todo <= package && least in package && least !in todo
      invariant forall t :: t in package && t !in todo && t != least ==> CountLess(pool, least, t)
      decreases todo
    {
      var t :| t in todo;
      if CountLess(pool, t, least) {
        least := t;
      }
      todo := todo - {t};
    }
  }

  /** SortForBlock: the package in ascending ancestor count. */
  method SortForBlock(pool: Pool, package: set<TxId>) returns (sorted: seq<TxId>)
    requires package <= pool.ancestors.Keys
    ensures Distinct(sorted) && Elements(sorted) == package
    ensures forall i :: 0 <= i < |sorted| ==> sorted[i] in package
    ensures forall i, j :: 0 <= i < j < |sorted| ==>
                             var m, n := |pool.ancestors[sorted[i]]|, |pool.ancestors[sorted[j]]|; m < n || (m == n && sorted[i] < sorted[j])
  {
    sorted := [];
    var todo := package;
    while todo != {}
      invariant todo <= package
      invariant forall i :: 0 <= i < |sorted| ==> sorted[i] in package && sorted[i] !in todo
      invariant Elements(sorted) == package - todo
      invariant forall i, j :: 0 <= i < j < |sorted| ==> CountLess(pool, sorted[i], sorted[j])
      invariant forall i, t :: 0 <= i < |sorted| && t in todo ==> CountLess(pool, sorted[i], t)
      decreases todo
    {
      var t := LeastByCount(pool, todo);
      ghost var before := sorted;
      sorted, todo := sorted + [t], todo - {t};
      assert Elements(sorted) == Elements(before) + {t};
    }
  }

  /** Ascending ancestor count puts every ancestor before its descendants. */
  lemma PackageOrdered(pool: Pool, inBlock: set<TxId>, t: TxId, sorted: seq<TxId>)
    requires pool.Valid() && t in pool.entries
    requires Elements(sorted) == Remaining(pool, inBlock, t)
    requires forall i :: 0 <= i < |sorted| ==> sorted[i] in Remaining(pool, inBlock, t)
    requires forall i :: 0 <= i < |sorted| ==> sorted[i] in pool.ancestors
    requires forall i, j :: 0 <= i < j < |sorted| ==> |pool.ancestors[sorted[i]]| <= |pool.ancestors[sorted[j]]|
    ensures forall i :: 0 <= i < |sorted| ==> pool.ancestors[sorted[i]] <= inBlock + Elements(sorted[..i])
  {
    assert pool.ValidEntry(t);
    forall i, a | 0 <= i < |sorted| && a in pool.ancestors[sorted[i]]
      ensures a in inBlock + Elements(sorted[..i])
    {
      if a !in inBlock {
        assert a in Elements(sorted);
        var j :| 0 <= j < |sorted| && sorted[j] == a;
        pool.AncestorCountGrows(a, sorted[i]);
        assert j < i;
        assert sorted[..i][j] == a;
      }
    }
  }

  lemma PackageInPool(pool: Pool, inBlock: set<TxId>, t: TxId)
    requires pool.Valid() && t in pool.entries
    ensures Remaining(pool, inBlock, t) <= pool.entries.Keys
    ensures Remaining(pool, inBlock, t) <= pool.ancestors.Keys
    ensures Remaining(pool, inBlock, t) !! inBlock
  {
    assert pool.ValidEntry(t);
  }

  lemma EmptyTable(pool: Pool)
    requires pool.Valid()
    ensures Closed(pool, {}) && Halfway(pool, {}, {}, {}, {}, map[])
  {}

  lemma DroppedFromTable(pool: Pool, inBlock: set<TxId>, failed: set<TxId>, added: set<TxId>,
                         start: ModifiedSet, modified: ModifiedSet)
    requires pool.Valid() && SideTableOk(pool, inBlock, failed, start)
    requires modified == start - added
    ensures Halfway(pool, inBlock, failed, added, {}, modified)
  {
    hide Tracked, Touched, Pool.ValidEntry, Pool.CachedOk;
    assert inBlock + {} == inBlock;
    forall t | t in modified
      ensures ModifiedOk(pool, inBlock, failed, t, modified[t]) && Touched(pool, inBlock, t)
    {
      assert t in start;
    }
  }

  lemma FailedKept(pool: Pool, inBlock: set<TxId>, failed: set<TxId>, modified: ModifiedSet, t: TxId)
    requires pool.Valid() && SideTableOk(pool, inBlock, failed, modified) && t in modified
    ensures SideTableOk(pool, inBlock, failed + {t}, modified - {t})
  {
    hide Tracked, Touched, Pool.ValidEntry, Pool.CachedOk;
    forall u | u in modified - {t}
      ensures ModifiedOk(pool, inBlock, failed + {t}, u, (modified - {t})[u]) && Touched(pool, inBlock, u)
    {
      assert ModifiedOk(pool, inBlock, failed, u, modified[u]);
    }
  }

  lemma TrackedInPool(pool: Pool, inBlock: set<TxId>, failed: set<TxId>, t: TxId, totals: Totals)
    requires ModifiedOk(pool, inBlock, failed, t, totals)
    ensures t in pool.entries && t in pool.ancestors && t !in inBlock
  {}

  /** A package with a transaction that is not acceptable. */
  lemma NotWelcome(pool: Pool, f: Fill, t: TxId, u: TxId)
    requires t in pool.ancestors && u in Remaining(pool, f.inBlock, t) && u in pool.entries && !f.Welcome(pool.entries[u])
    ensures Unwelcome(pool, f, t) && Rejected(pool, f, t)
  {}

  lemma AllWelcome(pool: Pool, f: Fill, t: TxId)
    requires t in pool.ancestors && forall u :: u in Remaining(pool, f.inBlock, t) && u in pool.entries ==> f.Welcome(pool.entries[u])
    ensures !Unwelcome(pool, f, t)
  {}

  /** Only a transaction with a reason to stay out can be over-counted. */
  lemma FailedRejected(pool: Pool, f: Fill, failed: set<TxId>, modified: ModifiedSet, rest: seq<TxId>, t: TxId, totals: Totals)
    requires pool.Valid() && NoneForgotten(pool, f, modified, failed, rest) && ModifiedOk(pool, f.inBlock, failed, t, totals)
    ensures t in pool.entries && t in pool.ancestors && Tracked(pool, f.inBlock, Rejected(pool, f, t), t, totals)
  {
    hide Rejected;
    var l :| Books(pool, f.inBlock, t in failed, t, totals, l);
    assert Books(pool, f.inBlock, Rejected(pool, f, t), t, totals, l);
  }

  lemma DoesNotFit(pool: Pool, f: Fill, failed: set<TxId>, modified: ModifiedSet, rest: seq<TxId>, t: TxId, totals: Totals)
    requires pool.Valid() && NoneForgotten(pool, f, modified, failed, rest) && ModifiedOk(pool, f.inBlock, failed, t, totals)
    requires !f.Room(totals.size, totals.sigOps)
    ensures t in pool.ancestors && Rejected(pool, f, t) && Missed(pool, f, t)
  {
    hide Rejected, Missed, Tracked;
    TrackedInPool(pool, f.inBlock, failed, t, totals);
    if t !in failed {
      TooBig(pool, f, t, totals);
    }
    MissedAgain(pool, f, t in failed, t, totals);
  }

  lemma AllMissed(pool: Pool, f: Fill, modified: ModifiedSet, failed: set<TxId>, rest: seq<TxId>, misses: set<TxId>)
    requires MissesOk(pool, f, modified, failed, rest, misses)
    ensures forall t :: t in misses ==> Missed(pool, f, t)
  {}

  lemma NoMisses(pool: Pool, f: Fill, modified: ModifiedSet, failed: set<TxId>, rest: seq<TxId>)
    ensures MissesOk(pool, f, modified, failed, rest, {})
  {}

  lemma FewerLeft(pool: Pool, f: Fill, modified: ModifiedSet, failed: set<TxId>, order: seq<TxId>, mi: nat, misses: set<TxId>)
    requires mi < |order| && MissesOk(pool, f, modified, failed, order[mi..], misses)
    ensures MissesOk(pool, f, modified, failed, order[mi + 1..], misses)
  {
    hide Missed;
    assert order[mi..] == [order[mi]] + order[mi + 1..];
  }

  lemma StillNone(pool: Pool, f: Fill, modified: ModifiedSet, order: seq<TxId>)
    requires pool.Valid() && NoneForgotten(pool, f, map[], {}, order)
    ensures NoneForgotten(pool, f, modified, {}, order)
  {
    hide Rejected;
  }

  /** The counters of the block grow by exactly the package. */
  lemma BlockGrows(pool: Pool, f: Fill, f': Fill, package: set<TxId>)
    requires package !! f.inBlock && f'.inBlock == f.inBlock + package && f'.maxWeight == f.maxWeight && f'.withWitness == f.withWitness
    requires f.weight == 4000 + Sum(f.inBlock, pool.Weights()) && f.sigOps == 400 + Sum(f.inBlock, pool.SigOps())
    requires f'.weight == 4000 + Sum(f'.inBlock, pool.Weights()) && f'.sigOps == 400 + Sum(f'.inBlock, pool.SigOps())
    requires forall t :: t in package && t in pool.entries ==> f.Welcome(pool.entries[t])
    ensures f.Grows(pool, f', package)
  {
    DisjointSum(f.inBlock, package, pool.Weights());
    DisjointSum(f.inBlock, package, pool.SigOps());
  }
}
