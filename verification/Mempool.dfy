/**
 * The memory pool as the block assembler sees it: entries, their strict ancestor relation and the
 * cached ancestor totals (src/txmempool.h, src/txmempool.cpp).
 */
module Mempool {
  import opened Basics
  import opened SetSum

  const WITNESS_SCALE_FACTOR := 4

  /** A transaction hash. Set iteration and every tie break in the source order by this number. */
  type TxId = nat

  datatype Entry = Entry(fee: int, modifiedFee: int, weight: nat, sigOps: nat,
                         isFinal: bool, hasWitness: bool)

  /** C++ integer division, which truncates towards zero. */
  function TruncDiv(a: int, b: int): int
    requires b > 0
  {
    if a >= 0 then a / b else -((-a) / b)
  }

  /** CFeeRate::GetFee for a rate in satoshis per 1000 bytes. */
  function FeeFor(satoshisPerK: int, size: nat): (fee: int)
    ensures satoshisPerK > 0 && size > 0 ==> fee > 0
    ensures satoshisPerK == 0 || size == 0 ==> fee == 0
    ensures satoshisPerK < 0 && size > 0 ==> fee < 0
  {
    var fee := TruncDiv(satoshisPerK * size, 1000);
    if fee == 0 && size != 0 then
      if satoshisPerK > 0 then 1 else if satoshisPerK < 0 then -1 else 0
    else fee
  }

  lemma ProductSign(a: int, b: nat)
    ensures (-a) * b == -(a * b)
    ensures a >= 0 ==> a * b >= 0
    ensures a > 0 && b > 0 ==> a * b > 0
    ensures a < 0 && b > 0 ==> a * b < 0
  {
    if a < 0 && b > 0 {
      assert (-a) * b > 0;
    }
  }

  /** The fee is the exact one rounded down, but at least one satoshi for a positive rate; negative rates mirror it. */
  lemma FeeRounded(rate: int, size: nat)
    requires rate >= 0
    ensures 0 < rate * size < 1000 ==> FeeFor(rate, size) == 1
    ensures !(0 < rate * size < 1000) ==> 1000 * FeeFor(rate, size) <= rate * size < 1000 * (FeeFor(rate, size) + 1)
    ensures FeeFor(-rate, size) == -FeeFor(rate, size)
  {
    ProductSign(rate, size);
    ProductSign(-rate, size);
  }

  /** Fees that pay a rate in satoshis per 1000 bytes: they miss it by less than one satoshi, and are of its sign. */
  predicate Pays(rate: int, size: nat, fees: int) {
    if size == 0 || rate == 0 then fees >= 0
    else if rate > 0 then fees > 0 && 1000 * fees > rate * size - 1000
    else fees >= -1 || 1000 * fees >= rate * size
  }

  lemma PaysIff(rate: int, size: nat, fees: int)
    ensures fees >= FeeFor(rate, size) <==> Pays(rate, size, fees)
  {
    ProductSign(rate, size);
    FeeRounded(if rate >= 0 then rate else -rate, size);
    ProductSign(-rate, size);
  }

  lemma PaysRate(rate: int, size: nat, fees: int)
    ensures Pays(rate, size, fees) ==> 1000 * fees > rate * size - 1000
    ensures !Pays(rate, size, fees) ==> 1000 * fees < rate * size
  {
    ProductSign(rate, size);
  }

  /** Ancestor totals of one entry, cached in the pool or kept by the block assembler. */
  datatype Totals = Totals(size: int, modFees: int, sigOps: int)

  datatype Pool = Pool(entries: map<TxId, Entry>, ancestors: map<TxId, set<TxId>>,
                       cached: map<TxId, Totals>, bytesPerSigOp: nat)
  {
    /**
     * The ancestor relation is a finite strict partial order: every transaction DAG gives one, and
     * each arises from a DAG. The pool keeps each entry's totals over itself and its ancestors.
     */
    ghost predicate Valid() {
      && ancestors.Keys == entries.Keys == cached.Keys
      && (forall t {:trigger ValidEntry(t)} :: t in entries ==> ValidEntry(t))
      && (forall t {:trigger CachedOk(t)} :: t in entries ==> CachedOk(t))
    }

    ghost predicate CachedOk(t: TxId)
      requires t in ancestors && t in cached
    {
      cached[t] == TotalsOf(Package(t))
    }

    ghost predicate ValidEntry(t: TxId)
      requires ancestors.Keys == entries.Keys && t in entries
    {
      && entries[t].weight > 0
      && ancestors[t] <= entries.Keys && t !in ancestors[t]
      && (forall a :: a in ancestors[t] ==> ancestors[a] <= ancestors[t])
    }

    /** GetVirtualTransactionSize: weight, or sigops priced in bytes, rounded up to whole bytes. */
    function VirtualSize(e: Entry): (size: nat)
      ensures e.weight <= WITNESS_SCALE_FACTOR * size && e.sigOps * bytesPerSigOp <= WITNESS_SCALE_FACTOR * size
      ensures WITNESS_SCALE_FACTOR * (size - 1) < e.weight || WITNESS_SCALE_FACTOR * (size - 1) < e.sigOps * bytesPerSigOp
    {
      var w := if e.weight >= e.sigOps * bytesPerSigOp then e.weight else e.sigOps * bytesPerSigOp;
      (w + WITNESS_SCALE_FACTOR - 1) / WITNESS_SCALE_FACTOR
    }

    // Per-transaction quantities, total so that they can be summed over sets.
    function Sizes(): TxId -> int { t => if t in entries then VirtualSize(entries[t]) else 0 }
    function Weights(): TxId -> int { t => if t in entries then entries[t].weight else 0 }
    function SigOps(): TxId -> int { t => if t in entries then entries[t].sigOps else 0 }
    function ModFees(): TxId -> int { t => if t in entries then entries[t].modifiedFee else 0 }

    function Package(t: TxId): set<TxId>
      requires t in ancestors
    {
      ancestors[t] + {t}
    }

    /** Totals over a set of transactions. */
    ghost function TotalsOf(s: set<TxId>): Totals {
      Totals(Sum(s, Sizes()), Sum(s, ModFees()), Sum(s, SigOps()))
    }

    lemma TotalsTake(s: set<TxId>, t: TxId)
      requires t in s
      ensures var rest := TotalsOf(s - {t});
              TotalsOf(s) == Totals(rest.size + Sizes()(t), rest.modFees + ModFees()(t), rest.sigOps + SigOps()(t))
    {
      SumTake(s, Sizes(), t);
      SumTake(s, ModFees(), t);
      SumTake(s, SigOps(), t);
    }

    lemma TotalsSplit(s: set<TxId>, t: set<TxId>)
      requires t <= s
      ensures TotalsOf(s).size == TotalsOf(t).size + TotalsOf(s - t).size
      ensures TotalsOf(s).modFees == TotalsOf(t).modFees + TotalsOf(s - t).modFees
      ensures TotalsOf(s).sigOps == TotalsOf(t).sigOps + TotalsOf(s - t).sigOps
    {
      SumSplit(s, t, Sizes());
      SumSplit(s, t, ModFees());
      SumSplit(s, t, SigOps());
    }

    /** Sizes and sigop costs only grow with the set (modified fees may be negative). */
    lemma TotalsMonotone(s: set<TxId>, t: set<TxId>)
      requires t <= s
      ensures 0 <= TotalsOf(t).size <= TotalsOf(s).size
      ensures 0 <= TotalsOf(t).sigOps <= TotalsOf(s).sigOps
    {
      TotalsSplit(s, t);
      SumNonNegative(t, Sizes());
      SumNonNegative(s - t, Sizes());
      SumNonNegative(t, SigOps());
      SumNonNegative(s - t, SigOps());
    }

    /** An ancestor has strictly fewer ancestors than its descendant. */
    lemma AncestorCountGrows(a: TxId, t: TxId)
      requires Valid() && t in entries && a in entries && a in ancestors[t]
      ensures |ancestors[a]| < |ancestors[t]|
    {
      assert ValidEntry(t) && ValidEntry(a);
      var rest := ancestors[t] - {a};
      SubsetSize(ancestors[a], rest);
    }
  }
}
