/**
 * Where the comments of the block assembler (src/miner.cpp) promise more than the code does: two small
 * pools, and what the fee stop guarantees.
 */
module MinerCases {
  import opened SetSum
  import opened Mempool
  import opened Miner

  // ----- the fee stop --------------------------------------------------------------------------------

  lemma LowerRatio(f: int, n: nat, g: int, m: nat, rate: int)
    requires n > 0 && m > 0 && 1000 * g < rate * m && f as real / n as real <= g as real / m as real
    ensures 1000 * f < rate * n
  {
    var x, y := f as real / n as real, g as real / m as real;
    assert f as real == x * n as real && g as real == y * m as real;
    assert 1000.0 * g as real < rate as real * m as real;
    assert (rate as real - 1000.0 * y) * m as real > 0.0;
    assert 1000.0 * y < rate as real;
    assert 1000.0 * x * n as real < rate as real * n as real;
  }

  /**
   * When the best candidate pays less than the minimum, every other one has a sort rate below the minimum.
   * So a candidate that pays the minimum by itself does not pay it together with its ancestors.
   */
  lemma FeeStop(pool: Pool, rate: int, t: TxId, totals: Totals, u: TxId, uTotals: Totals)
    requires t in pool.entries && u in pool.entries && pool.entries[u].weight > 0 && totals.size > 0 && uTotals.size > 0
    requires !Pays(rate, totals.size, totals.modFees) && !Better(pool, u, uTotals, t, totals)
    ensures 1000 * pool.entries[u].modifiedFee < rate * pool.VirtualSize(pool.entries[u]) || 1000 * uTotals.modFees < rate * uTotals.size
  {
    PaysRate(rate, totals.size, totals.modFees);
    var own := pool.VirtualSize(pool.entries[u]);
    if SortRate(pool, u, uTotals) == uTotals.modFees as real / uTotals.size as real {
      LowerRatio(uTotals.modFees, uTotals.size, totals.modFees, totals.size, rate);
    } else {
      LowerRatio(pool.entries[u].modifiedFee, own, totals.modFees, totals.size, rate);
    }
  }

  // ----- sums over small sets ------------------------------------------------------------------------

  function Plus(x: Totals, pool: Pool, t: TxId): Totals {
    Totals(x.size + pool.Sizes()(t), x.modFees + pool.ModFees()(t), x.sigOps + pool.SigOps()(t))
  }

  const NOTHING := Totals(0, 0, 0)

  lemma TotalsPut(pool: Pool, s: set<TxId>, t: TxId)
    requires t !in s
    ensures pool.TotalsOf(s + {t}) == Plus(pool.TotalsOf(s), pool, t)
  {
    SumPut(s, pool.Sizes(), t);
    SumPut(s, pool.ModFees(), t);
    SumPut(s, pool.SigOps(), t);
  }

  lemma TotalsOne(pool: Pool, a: TxId)
    ensures pool.TotalsOf({a}) == Plus(NOTHING, pool, a)
  {
    TotalsPut(pool, {}, a);
    assert {} + {a} == {a};
  }

  lemma TotalsTwo(pool: Pool, a: TxId, b: TxId)
    requires a != b
    ensures pool.TotalsOf({a, b}) == Plus(Plus(NOTHING, pool, a), pool, b)
  {
    TotalsOne(pool, a);
    TotalsPut(pool, {a}, b);
    assert {a} + {b} == {a, b};
  }

  lemma TotalsThree(pool: Pool, a: TxId, b: TxId, c: TxId)
    requires a != b && a != c && b != c
    ensures pool.TotalsOf({a, b, c}) == Plus(Plus(Plus(NOTHING, pool, a), pool, b), pool, c)
  {
    TotalsTwo(pool, a, b);
    TotalsPut(pool, {a, b}, c);
    assert {a, b} + {c} == {a, b, c};
  }

  lemma TotalsFour(pool: Pool, a: TxId, b: TxId, c: TxId, d: TxId)
    requires a != b && a != c && b != c && a != d && b != d && c != d
    ensures pool.TotalsOf({a, b, c, d}) == Plus(Plus(Plus(Plus(NOTHING, pool, a), pool, b), pool, c), pool, d)
  {
    TotalsThree(pool, a, b, c);
    TotalsPut(pool, {a, b, c}, d);
    assert {a, b, c} + {d} == {a, b, c, d};
  }

  // ----- a candidate left behind by the fee stop -------------------------------------------------------

  /** A costly grandparent 0, its children 1 and 2 with good fees, and their common child 3. */
  ghost function Diamond(): (p: Pool)
    ensures p.entries.Keys == p.ancestors.Keys == p.cached.Keys == {0, 1, 2, 3} && p.bytesPerSigOp == 20
    ensures p.entries[0] == Plain(0, 40) && p.entries[1] == Plain(7, 4) && p.entries[2] == Plain(7, 4) && p.entries[3] == Plain(1, 8)
    ensures p.ancestors[0] == {} && p.ancestors[1] == {0} && p.ancestors[2] == {0} && p.ancestors[3] == {0, 1, 2}
    ensures p.cached[0] == Totals(10, 0, 0) && p.cached[1] == Totals(11, 7, 0) && p.cached[2] == Totals(11, 7, 0) && p.cached[3] == Totals(14, 15, 0)
  {
    Pool(map[0 := Plain(0, 40), 1 := Plain(7, 4), 2 := Plain(7, 4), 3 := Plain(1, 8)],
         map[0 := {}, 1 := {0}, 2 := {0}, 3 := {0, 1, 2}],
         map[0 := Totals(10, 0, 0), 1 := Totals(11, 7, 0), 2 := Totals(11, 7, 0), 3 := Totals(14, 15, 0)], 20)
  }

  function Plain(fee: int, weight: nat): Entry {
    Entry(fee, fee, weight, 0, true, false)
  }

  lemma DiamondAmounts()
    ensures var p := Diamond();
            && p.Sizes()(0) == 10 && p.Sizes()(1) == 1 && p.Sizes()(2) == 1 && p.Sizes()(3) == 2
            && p.ModFees()(0) == 0 && p.ModFees()(1) == 7 && p.ModFees()(2) == 7 && p.ModFees()(3) == 1
            && p.SigOps()(0) == p.SigOps()(1) == p.SigOps()(2) == p.SigOps()(3) == 0
  {
    hide Diamond;
  }

  lemma DiamondCached()
    ensures var p := Diamond(); p.CachedOk(0) && p.CachedOk(1) && p.CachedOk(2) && p.CachedOk(3)
  {
    hide Diamond, Pool.TotalsOf, Pool.Sizes, Pool.ModFees, Pool.SigOps;
    var p := Diamond();
    DiamondAmounts();
    TotalsOne(p, 0);
    TotalsTwo(p, 0, 1);
    TotalsTwo(p, 0, 2);
    TotalsFour(p, 0, 1, 2, 3);
    assert p.Package(0) == {0} && p.Package(1) == {0, 1} && p.Package(2) == {0, 2} && p.Package(3) == {0, 1, 2, 3};
  }

  lemma DiamondValid()
    ensures Diamond().Valid()
  {
    hide Diamond, Pool.CachedOk;
    DiamondCached();
  }

  lemma DiamondSorted()
    ensures Sorted(Diamond(), [1, 2, 3, 0])
  {
    hide Diamond;
    var p := Diamond();
    assert SortRate(p, 1, p.cached[1]) == 7.0 / 11.0 == SortRate(p, 2, p.cached[2]);
    assert SortRate(p, 3, p.cached[3]) == 0.5 && SortRate(p, 0, p.cached[0]) == 0.0;
    hide SortRate;
    var order := [1, 2, 3, 0];
    forall i, j | 0 <= i < j < |order|
      ensures Better(p, order[i], p.cached[order[i]], order[j], p.cached[order[j]])
    {}
  }

  /** At 1 satoshi per byte the best candidate is 1 and stops the selection, although the package of 3 pays more than that. */
  lemma FeeStopExample()
    ensures var p := Diamond();
            && p.Valid() && Sorted(p, [1, 2, 3, 0])
            && !Pays(1000, p.cached[1].size, p.cached[1].modFees) && Pays(1000, p.cached[3].size, p.cached[3].modFees)
  {
    hide Diamond, Pool.Valid, Sorted;
    DiamondValid();
    DiamondSorted();
  }

  // ----- a transaction left out because it is over-counted ------------------------------------------------

  /** Transaction 3 with parents 1 and 2; the size of 2 comes from its sigops. */
  ghost function Pair(): (p: Pool)
    ensures p.entries.Keys == p.ancestors.Keys == p.cached.Keys == {1, 2, 3} && p.bytesPerSigOp == 20
    ensures p.entries[1] == Plain(1000, 400) && p.entries[2] == Entry(200, 200, 40, 40, true, false) && p.entries[3] == Plain(900, 400)
    ensures p.ancestors[1] == {} && p.ancestors[2] == {} && p.ancestors[3] == {1, 2}
    ensures p.cached[1] == Totals(100, 1000, 0) && p.cached[2] == Totals(200, 200, 40) && p.cached[3] == Totals(400, 2100, 40)
  {
    Pool(map[1 := Plain(1000, 400), 2 := Entry(200, 200, 40, 40, true, false), 3 := Plain(900, 400)],
         map[1 := {}, 2 := {}, 3 := {1, 2}],
         map[1 := Totals(100, 1000, 0), 2 := Totals(200, 200, 40), 3 := Totals(400, 2100, 40)], 20)
  }

  lemma PairAmounts()
    ensures var p := Pair();
            && p.Sizes()(1) == 100 && p.Sizes()(2) == 200 && p.Sizes()(3) == 100
            && p.ModFees()(1) == 1000 && p.ModFees()(2) == 200 && p.ModFees()(3) == 900
            && p.SigOps()(1) == 0 && p.SigOps()(2) == 40 && p.SigOps()(3) == 0
            && p.Weights()(1) == 400 && p.Weights()(2) == 40
  {
    hide Pair;
  }

  lemma PairCached()
    ensures var p := Pair(); p.CachedOk(1) && p.CachedOk(2) && p.CachedOk(3)
  {
    hide Pair, Pool.TotalsOf, Pool.Package;
    PairTotalsOf();
    PairPackages();
  }

  lemma PairPackages()
    ensures var p := Pair(); p.Package(1) == {1} && p.Package(2) == {2} && p.Package(3) == {1, 2, 3}
  {
    hide Pair;
  }

  lemma PairTotalsOf()
    ensures var p := Pair(); p.TotalsOf({1}) == p.cached[1] && p.TotalsOf({2}) == p.cached[2] && p.TotalsOf({1, 2, 3}) == p.cached[3]
  {
    hide Pair, Pool.TotalsOf, Pool.Sizes, Pool.ModFees, Pool.SigOps;
    var p := Pair();
    PairAmounts();
    TotalsOne(p, 1);
    TotalsOne(p, 2);
    TotalsThree(p, 1, 2, 3);
  }

  lemma PairValid()
    ensures Pair().Valid()
  {
    hide Pair, Pool.CachedOk;
    PairCached();
  }

  lemma PairSorted()
    ensures Sorted(Pair(), [1, 3, 2])
  {
    hide Pair;
    var p := Pair();
    assert SortRate(p, 1, p.cached[1]) == 10.0 && SortRate(p, 3, p.cached[3]) == 5.25 && SortRate(p, 2, p.cached[2]) == 1.0;
    hide SortRate;
    var order := [1, 3, 2];
    forall i, j | 0 <= i < j < |order|
      ensures Better(p, order[i], p.cached[order[i]], order[j], p.cached[order[j]])
    {}
  }

  /** A block of at most 5240 weight units after n of the parents went in. */
  function PairBlock(n: nat): Fill {
    if n == 0 then Fill({}, 4000, 400, 5240, true) else
    if n == 1 then Fill({1}, 4400, 400, 5240, true) else Fill({1, 2}, 4440, 440, 5240, true)
  }

  lemma GrowsOne(pool: Pool, f: Fill, f': Fill, t: TxId)
    requires t in pool.entries && t !in f.inBlock && f.Welcome(pool.entries[t])
    requires f' == Fill(f.inBlock + {t}, f.weight + pool.Weights()(t), f.sigOps + pool.SigOps()(t), f.maxWeight, f.withWitness)
    ensures f.Grows(pool, f', {t})
  {
    hide Pool.Weights, Pool.SigOps;
    SumPut({}, pool.Weights(), t);
    SumPut({}, pool.SigOps(), t);
    assert {} + {t} == {t};
  }

  lemma PairGrows()
    ensures PairBlock(0).Grows(Pair(), PairBlock(1), {1}) && PairBlock(1).Grows(Pair(), PairBlock(2), {2})
  {
    hide Pair, Pool.Weights, Pool.SigOps, Fill.Grows;
    PairAmounts();
    assert {} + {1} == {1} && {1} + {2} == {1, 2};
    GrowsOne(Pair(), PairBlock(0), PairBlock(1), 1);
    GrowsOne(Pair(), PairBlock(1), PairBlock(2), 2);
  }

  /** What the table holds for 3 after its first and, when it comes back, after its second parent; and what is really due then. */
  lemma PairTotals()
    ensures var p, none := Pair(), map[];
            && Corrected(p, none, 1, 3) == Totals(300, 1100, 40) && Corrected(p, none, 2, 3) == Totals(200, 1900, 0)
            && p.TotalsOf(Remaining(p, {1, 2}, 3)) == Totals(100, 900, 0)
  {
    hide Pair, Pool.TotalsOf;
    PairDue();
  }

  lemma PairDue()
    ensures var p := Pair(); p.TotalsOf(Remaining(p, {1, 2}, 3)) == Totals(100, 900, 0)
  {
    hide Pair, Pool.TotalsOf, Pool.Sizes, Pool.ModFees, Pool.SigOps;
    var p := Pair();
    PairRemaining();
    PairAmounts();
    TotalsOne(p, 3);
  }

  lemma PairRemaining()
    ensures Remaining(Pair(), {1, 2}, 3) == {3}
  {}

  /** What the selection evaluates next, given its table and the rest of the index, with the fee minimum met. */
  ghost predicate Takes(p: Pool, inBlock: set<TxId>, modified: ModifiedSet, failed: set<TxId>, rest: seq<TxId>, t: TxId, totals: Totals) {
    && IsBest(p, inBlock, modified, failed, rest, t, totals)
    && (if t in modified then totals == modified[t] else rest != [] && t == rest[0] && t in p.cached && totals == p.cached[t])
    && totals.size >= 0 && Pays(1000, totals.size, totals.modFees)
  }

  lemma PairRates()
    ensures var p := Pair();
            && SortRate(p, 1, p.cached[1]) == 10.0 && SortRate(p, 3, p.cached[3]) == 5.25 && SortRate(p, 2, p.cached[2]) == 1.0
            && SortRate(p, 3, Totals(300, 1100, 40)) == 11.0 / 3.0 && SortRate(p, 3, Totals(200, 1900, 0)) == 9.0
  {
    hide Pair;
  }

  lemma TakesFirst()
    ensures Takes(Pair(), {}, map[], {}, [1, 3, 2], 1, Pair().cached[1])
  {
    hide Pair, SortRate;
    PairRates();
  }

  lemma TakesFailed()
    ensures Takes(Pair(), {1}, map[3 := Totals(300, 1100, 40)], {}, [2], 3, Totals(300, 1100, 40))
  {
    hide Pair, SortRate;
    PairRates();
  }

  lemma TakesSecond()
    ensures Takes(Pair(), {1}, map[], {3}, [2], 2, Pair().cached[2])
  {
    hide Pair, SortRate;
    PairRates();
  }

  lemma TakesAgain()
    ensures Takes(Pair(), {1, 2}, map[3 := Totals(200, 1900, 0)], {3}, [], 3, Totals(200, 1900, 0))
  {
    hide Pair, SortRate;
    PairRates();
  }

  /**
   * The rounds of the selection at a minimum of 1 satoshi per byte. Transaction 1 goes in first. Then 3 is the
   * best and does not fit with 2; it fails. Then 2 goes in, and 3 comes back into the table with the size of 1
   * counted again. It is the last candidate and is turned down although it would fit.
   */
  lemma OvercountRun()
    ensures var p, none := Pair(), map[];
            var first, second := Corrected(p, none, 1, 3), Corrected(p, none, 2, 3);
            && p.Valid() && Sorted(p, [1, 3, 2])
            && Takes(p, {}, none, {}, [1, 3, 2], 1, p.cached[1])
            && PairBlock(0).Room(p.cached[1].size, p.cached[1].sigOps) && PairBlock(0).Grows(p, PairBlock(1), {1})
            && Takes(p, {1}, map[3 := first], {}, [2], 3, first) && !PairBlock(1).Room(first.size, first.sigOps)
            && Takes(p, {1}, none, {3}, [2], 2, p.cached[2])
            && PairBlock(1).Room(p.cached[2].size, p.cached[2].sigOps) && PairBlock(1).Grows(p, PairBlock(2), {2})
            && Takes(p, {1, 2}, map[3 := second], {3}, [], 3, second) && !PairBlock(2).Room(second.size, second.sigOps)
            && var due := p.TotalsOf(Remaining(p, {1, 2}, 3)); PairBlock(2).Room(due.size, due.sigOps)
  {
    hide Pair, Pool.Valid, Sorted, Fill.Grows, Pool.TotalsOf, Corrected, Takes;
    PairValid();
    PairSorted();
    PairGrows();
    PairTotals();
    TakesFirst();
    TakesFailed();
    TakesSecond();
    TakesAgain();
  }
}
