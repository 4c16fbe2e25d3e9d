/**
 * The coins cache (src/coins.h, src/coins.cpp): write-back caches with DIRTY and FRESH flags stacked
 * on a database of unspent outputs, refining one plain map of unspent coins.
 */
module Coins {
  import opened SetSum

  datatype OutPoint = OutPoint(txid: nat, n: nat)

  const MAX_SCRIPT_SIZE := 10000
  const OP_RETURN := 0x6a

  datatype Coin = Coin(value: int, script: seq<nat>, isCoinBase: bool, height: nat)
  {
    /** CTxOut::IsNull */
    predicate IsSpent() { value == -1 }

    predicate IsUnspendable() {
      (|script| > 0 && script[0] == OP_RETURN) || |script| > MAX_SCRIPT_SIZE
    }

    /** Heap bytes of the script: none when it fits the 28 inline bytes, else one malloc block. */
    function DynamicMemoryUsage(): nat {
      if |script| <= 28 then 0 else (|script| + 31) / 16 * 16
    }
  }

  /** A script cannot be spent if it starts with the byte 0x6a or is longer than 10000 bytes. */
  lemma UnspendableIff(c: Coin)
    ensures c.IsUnspendable() <==> [0x6a] <= c.script || |c.script| >= 10001
  {}

  /** A script of more than 28 bytes takes the least multiple of 16 that exceeds its size by at least 16. */
  lemma MemoryBlock(c: Coin)
    ensures var n, m := |c.script|, c.DynamicMemoryUsage();
            if n <= 28 then m == 0 else m % 16 == 0 && n + 16 <= m < n + 32
  {}

  /** The value of a Coin after Clear(), and of a default-constructed one. */
  const CLEARED := Coin(-1, [], false, 0)

  datatype Entry = Entry(coin: Coin, isDirty: bool, isFresh: bool)

  type CoinsMap = map<OutPoint, Entry>
  /** The reference model: the unspent coins. */
  type Utxo = map<OutPoint, Coin>

  // ----- one cache over a base view ---------------------------------------------------------------

  /** What a cache shows: its own entries where it has them, the base view elsewhere. */
  ghost function Overlay(base: Utxo, cache: CoinsMap): Utxo {
    map o | o in base.Keys + cache.Keys && (o in cache ==> !cache[o].coin.IsSpent())
      :: if o in cache then cache[o].coin else base[o]
  }

  /** The meaning of the flags: FRESH entries hide nothing unspent, clean entries repeat the base. */
  ghost predicate EntryOk(base: Utxo, o: OutPoint, e: Entry) {
    && (e.isFresh ==> o !in base)
    && (!e.isDirty ==> if e.coin.IsSpent() then o !in base else o in base && base[o] == e.coin)
  }

  ghost predicate CacheOk(base: Utxo, cache: CoinsMap) {
    forall o :: o in cache ==> EntryOk(base, o, cache[o])
  }

  ghost predicate AllUnspent(view: Utxo) {
    forall o :: o in view ==> !view[o].IsSpent()
  }

  lemma OverlayUnspent(base: Utxo, cache: CoinsMap)
    requires AllUnspent(base)
    ensures AllUnspent(Overlay(base, cache))
  {}

  /** The plain-map effect of an entry being written over a view. */
  ghost function Written(view: Utxo, o: OutPoint, coin: Coin): Utxo {
    if coin.IsSpent() then view - {o} else view[o := coin]
  }

  lemma OverlayUpdate(base: Utxo, cache: CoinsMap, o: OutPoint, e: Entry)
    ensures Overlay(base, cache[o := e]) == Written(Overlay(base, cache), o, e.coin)
  {}

  lemma OverlayErase(base: Utxo, cache: CoinsMap, o: OutPoint)
    requires o !in base
    ensures Overlay(base, cache - {o}) == Overlay(base, cache) - {o}
  {}

  /** A clean entry can come and go without anybody noticing. */
  lemma OverlayClean(base: Utxo, cache: CoinsMap, o: OutPoint)
    requires o in cache && !cache[o].isDirty && EntryOk(base, o, cache[o])
    ensures Overlay(base, cache - {o}) == Overlay(base, cache)
  {}

  lemma OverlayHit(base: Utxo, cache: CoinsMap, o: OutPoint)
    requires o in cache
    ensures o in Overlay(base, cache) <==> !cache[o].coin.IsSpent()
    ensures o in Overlay(base, cache) ==> Overlay(base, cache)[o] == cache[o].coin
  {}

  lemma OverlayMiss(base: Utxo, cache: CoinsMap, o: OutPoint)
    requires o !in cache
    ensures o in Overlay(base, cache) <==> o in base
  {}

  /** Loading an unspent coin from the base is neutral. */
  lemma FetchNeutral(base: Utxo, cache: CoinsMap, o: OutPoint)
    requires CacheOk(base, cache) && o !in cache && o in base && !base[o].IsSpent()
    ensures var cache' := cache[o := Entry(base[o], false, false)];
            Overlay(base, cache') == Overlay(base, cache) && CacheOk(base, cache')
  {
    var e := Entry(base[o], false, false);
    OverlayUpdate(base, cache, o, e);
    CacheOkUpdate(base, cache, o, e);
    assert Written(Overlay(base, cache), o, base[o]) == Overlay(base, cache);
  }

  lemma CacheOkUpdate(base: Utxo, cache: CoinsMap, o: OutPoint, e: Entry)
    requires CacheOk(base, cache)
    ensures (CacheOk(base, cache[o := e]) <==> EntryOk(base, o, e)) && CacheOk(base, cache - {o})
  {
    assert cache[o := e][o] == e;
  }

  // ----- writing a child cache into its parent --------------------------------------------------------

  /** The loop body of BatchWrite: fold one child entry into the parent's map. */
  function Merge(parent: CoinsMap, o: OutPoint, e: Entry): CoinsMap {
    if !e.isDirty then parent
    else if o !in parent then
      if e.isFresh && e.coin.IsSpent() then parent else parent[o := Entry(e.coin, true, e.isFresh)]
    else if parent[o].isFresh && e.coin.IsSpent() then parent - {o}
    else parent[o := Entry(e.coin, true, parent[o].isFresh)]
  }

  /** Folding an entry in writes exactly that entry's coin to the parent's view and keeps its flags honest. */
  lemma MergeWrites(base: Utxo, parent: CoinsMap, o: OutPoint, e: Entry)
    requires CacheOk(base, parent) && EntryOk(Overlay(base, parent), o, e)
    ensures CacheOk(base, Merge(parent, o, e))
    ensures Overlay(base, Merge(parent, o, e)) == Written(Overlay(base, parent), o, e.coin)
    ensures e.isFresh && o in parent ==> parent[o].coin.IsSpent()
    ensures var unseen := if o in parent then parent[o].isFresh else e.isFresh;
            e.isDirty ==> if unseen && e.coin.IsSpent() then o !in Merge(parent, o, e)
                          else o in Merge(parent, o, e) && Merge(parent, o, e)[o] == Entry(e.coin, true, unseen)
  {
    var view := Overlay(base, parent);
    if !e.isDirty {
      assert Written(view, o, e.coin) == view;
    } else if o !in parent {
      assert e.isFresh ==> o !in base;
      OverlayUpdate(base, parent, o, Entry(e.coin, true, e.isFresh));
      assert e.isFresh && e.coin.IsSpent() ==> view - {o} == view;
    } else if parent[o].isFresh && e.coin.IsSpent() {
      assert EntryOk(base, o, parent[o]);
      OverlayErase(base, parent, o);
    } else {
      assert EntryOk(base, o, parent[o]);
      OverlayUpdate(base, parent, o, Entry(e.coin, true, parent[o].isFresh));
    }
  }

  /** Writing one child entry through leaves what the child shows unchanged, and the rest of it honest. */
  lemma WriteThrough(view: Utxo, child: CoinsMap, o: OutPoint)
    requires CacheOk(view, child) && o in child
    ensures Overlay(Written(view, o, child[o].coin), child - {o}) == Overlay(view, child)
    ensures CacheOk(Written(view, o, child[o].coin), child - {o})
  {
    var view' := Written(view, o, child[o].coin);
    forall p | p in child - {o}
      ensures EntryOk(view', p, (child - {o})[p])
    {
      assert EntryOk(view, p, child[p]);
    }
  }

  // ----- memory accounting ---------------------------------------------------------------------------

  ghost function UsageOf(cache: CoinsMap): OutPoint -> int {
    o => if o in cache then cache[o].coin.DynamicMemoryUsage() else 0
  }

  /** What cachedCoinsUsage ought to be. */
  ghost function Usage(cache: CoinsMap): int {
    Sum(cache.Keys, UsageOf(cache))
  }

  lemma UsageErase(cache: CoinsMap, o: OutPoint)
    requires o in cache
    ensures Usage(cache - {o}) == Usage(cache) - cache[o].coin.DynamicMemoryUsage()
  {
    SumTake(cache.Keys, UsageOf(cache), o);
    assert (cache - {o}).Keys == cache.Keys - {o};
    SumSame(cache.Keys - {o}, UsageOf(cache), UsageOf(cache - {o}));
  }

  lemma UsageUpdate(cache: CoinsMap, o: OutPoint, e: Entry)
    ensures Usage(cache[o := e]) ==
            Usage(cache) - (if o in cache then cache[o].coin.DynamicMemoryUsage() else 0) + e.coin.DynamicMemoryUsage()
  {
    var cache' := cache[o := e];
    if o in cache {
      assert cache'.Keys == cache.Keys;
      SumChange(cache.Keys, UsageOf(cache), UsageOf(cache'), o);
    } else {
      assert cache'.Keys == cache.Keys + {o};
      SumPut(cache.Keys, UsageOf(cache'), o);
      SumSame(cache.Keys, UsageOf(cache), UsageOf(cache'));
    }
  }

  // ----- the database at the bottom ---------------------------------------------------------------------

  class CoinsDB {
    var coins: Utxo
    var bestBlock: nat

    constructor ()
      ensures coins == map[] && bestBlock == 0
    {
      coins, bestBlock := map[], 0;
    }

    /** CCoinsViewDB::BatchWrite: dirty entries are written, spent ones erased. */
    method BatchWrite(mapCoins: CoinsMap, hashBlock: nat)
      requires CacheOk(coins, mapCoins)
      modifies this
      ensures coins == Overlay(old(coins), mapCoins) && bestBlock == hashBlock
    {
      var rest := mapCoins;
      while rest != map[]
        invariant CacheOk(coins, rest)
        invariant Overlay(coins, rest) == Overlay(old(coins), mapCoins)
        decreases rest.Keys
      {
        var o :| o in rest;
        WriteThrough(coins, rest, o);
        assert EntryOk(coins, o, rest[o]);
        assert !rest[o].isDirty ==> Written(coins, o, rest[o].coin) == coins;
        if rest[o].isDirty {
          coins := if rest[o].coin.IsSpent() then coins - {o} else coins[o := rest[o].coin];
        }
        rest := rest - {o};
      }
      assert Overlay(coins, map[]) == coins;
      bestBlock := hashBlock;
    }
  }

  // ----- the cache ------------------------------------------------------------------------------------

  class CoinsViewCache {
    /** The view underneath: another cache, or the database when this is null. */
    const base: CoinsViewCache?
    const db: CoinsDB
    var hashBlock: nat
    var cacheCoins: CoinsMap
    var cachedCoinsUsage: int

    ghost const depth: nat
    ghost const repr: set<object>

    /** A stack of distinct caches ending in the database. */
    ghost predicate Shape()
      decreases depth
    {
      && this in repr && db in repr
      && (base == null ==> repr == {this, db} && depth == 0)
      && (base != null ==> base.depth + 1 == depth && base.db == db && base.Shape() &&
                           this !in base.repr && repr == {this} + base.repr)
    }

    ghost function BaseView(): Utxo
      requires Shape()
      reads repr
      decreases depth, 0
    {
      if base == null then db.coins else base.View()
    }

    /** The visible unspent coins. */
    ghost function View(): Utxo
      requires Shape()
      reads repr
      decreases depth, 1
    {
      Overlay(BaseView(), cacheCoins)
    }

    /** Every layer's flags are honest about the view below it. */
    ghost predicate Valid()
      reads repr
      decreases depth
    {
      && Shape()
      && (if base == null then AllUnspent(db.coins) else base.Valid())
      && CacheOk(BaseView(), cacheCoins)
    }

    /** Every layer's memory counter is right. */
    ghost predicate AccountsOk()
      requires Shape()
      reads repr
      decreases depth
    {
      && cachedCoinsUsage == Usage(cacheCoins)
      && (base != null ==> base.AccountsOk())
    }

    constructor OnDatabase(db: CoinsDB)
      requires AllUnspent(db.coins)
      ensures Valid() && AccountsOk() && View() == db.coins && repr == {this, db} && base == null && depth == 0
      ensures cacheCoins == map[] && hashBlock == 0
    {
      this.base, this.db, depth, repr := null, db, 0, {this, db};
      hashBlock, cacheCoins, cachedCoinsUsage := 0, map[], 0;
      new;
      assert Overlay(db.coins, map[]) == db.coins;
    }

    constructor OnCache(base: CoinsViewCache)
      requires base.Valid()
      ensures Valid() && View() == base.View() && repr == {this} + base.repr && this.base == base && depth == base.depth + 1
      ensures cacheCoins == map[] && hashBlock == 0
      ensures base.AccountsOk() ==> AccountsOk()
    {
      this.base, db, depth, repr := base, base.db, base.depth + 1, {this} + base.repr;
      hashBlock, cacheCoins, cachedCoinsUsage := 0, map[], 0;
      new;
      assert Overlay(base.View(), map[]) == base.View();
    }

    lemma ViewUnspent()
      requires Valid()
      ensures AllUnspent(View()) && AllUnspent(BaseView())
      decreases depth
    {
      if base != null {
        base.ViewUnspent();
      }
      OverlayUnspent(BaseView(), cacheCoins);
    }

    /** Load an entry from the view below unless the cache has one; no layer's view changes. */
    method FetchCoin(o: OutPoint) returns (found: bool)
      requires Valid()
      modifies repr
      ensures Valid() && View() == old(View()) && BaseView() == old(BaseView())
      ensures old(AccountsOk()) ==> AccountsOk()
      ensures found <==> o in cacheCoins
      ensures !found ==> o !in View()
      ensures old(o in cacheCoins) ==> cacheCoins == old(cacheCoins)
      ensures old(o !in cacheCoins) && found ==>
                !cacheCoins[o].coin.IsSpent() && cacheCoins == old(cacheCoins)[o := Entry(cacheCoins[o].coin, false, false)]
      ensures old(o !in cacheCoins) && !found ==> cacheCoins == old(cacheCoins)
      ensures hashBlock == old(hashBlock)
      decreases depth, 0
    {
      hide Overlay, CacheOk, Usage;
      if o in cacheCoins {
        return true;
      }
      ViewUnspent();
      OverlayMiss(BaseView(), cacheCoins, o);
      var ok, tmp := FromBase(o);
      if !ok {
        return false;
      }
      var flagFresh := tmp.IsSpent();
      var e := Entry(tmp, false, flagFresh);
      FetchNeutral(BaseView(), cacheCoins, o);
      UsageUpdate(cacheCoins, o, e);
      cacheCoins := cacheCoins[o := e];
      cachedCoinsUsage := cachedCoinsUsage + tmp.DynamicMemoryUsage();
      return true;
    }

    /** base->GetCoin */
    method FromBase(o: OutPoint) returns (ok: bool, coin: Coin)
      requires Valid()
      modifies repr - {this}
      ensures Valid() && BaseView() == old(BaseView())
      ensures old(AccountsOk()) ==> AccountsOk()
      ensures ok <==> o in BaseView()
      ensures ok ==> coin == BaseView()[o]
      decreases depth, 0, 0
    {
      if base == null {
        ok := o in db.coins;
        coin := if ok then db.coins[o] else CLEARED;
      } else {
        ok, coin := base.GetCoin(o);
      }
    }

    method GetCoin(o: OutPoint) returns (ok: bool, coin: Coin)
      requires Valid()
      modifies repr
      ensures Valid() && View() == old(View()) && BaseView() == old(BaseView())
      ensures old(AccountsOk()) ==> AccountsOk()
      ensures ok <==> o in View()
      ensures ok ==> coin == View()[o]
      decreases depth, 1
    {
      var found := FetchCoin(o);
      if found {
        coin := cacheCoins[o].coin;
        ok := !coin.IsSpent();
      } else {
        ok, coin := false, CLEARED;
      }
    }

    method HaveCoin(o: OutPoint) returns (ok: bool)
      requires Valid()
      modifies repr
      ensures Valid() && View() == old(View()) && BaseView() == old(BaseView())
      ensures old(AccountsOk()) ==> AccountsOk()
      ensures ok <==> o in View()
    {
      var found := FetchCoin(o);
      return found && !cacheCoins[o].coin.IsSpent();
    }

    /**
     * Add a coin. Without possibleOverwrite the caller vouches that no unspent version exists: one in this
     * cache is detected, and the source then throws; one below is not, and the entry is then falsely FRESH.
     */
    method AddCoin(o: OutPoint, coin: Coin, possibleOverwrite: bool) returns (thrown: bool)
      requires Valid() && !coin.IsSpent()
      modifies this
      ensures Shape() && BaseView() == old(BaseView()) && hashBlock == old(hashBlock)
      ensures Valid() <==> coin.IsUnspendable() || possibleOverwrite || old(o in cacheCoins || o !in View())
      ensures !Valid() ==> cacheCoins == old(cacheCoins)[o := Entry(coin, true, true)]
      ensures cacheCoins == if thrown || coin.IsUnspendable() then old(cacheCoins) else
                              old(cacheCoins)[o := Entry(coin, true, old(o in cacheCoins && cacheCoins[o].isFresh) ||
                                                                     (!possibleOverwrite && !old(o in cacheCoins && cacheCoins[o].isDirty)))]
      ensures thrown <==> !coin.IsUnspendable() && !possibleOverwrite && old(o in View() && o in cacheCoins)
      ensures View() == if thrown || coin.IsUnspendable() then old(View()) else old(View())[o := coin]
      ensures !thrown && old(AccountsOk()) ==> AccountsOk()
      ensures thrown ==> cachedCoinsUsage == old(cachedCoinsUsage) - old(cacheCoins)[o].coin.DynamicMemoryUsage()
                         && cacheCoins == old(cacheCoins)
    {
      hide CacheOk, Usage;
      if coin.IsUnspendable() {
        return false;
      }
      var inserted := o !in cacheCoins;
      var e := if inserted then Entry(CLEARED, false, false) else cacheCoins[o];
      FlagsOf(BaseView(), cacheCoins, o);
      var flagFresh := false;
      if !inserted {
        cachedCoinsUsage := cachedCoinsUsage - e.coin.DynamicMemoryUsage();
      }
      if !possibleOverwrite {
        if !e.coin.IsSpent() {
          return true;
        }
        flagFresh := !e.isDirty;
      }
      e := Entry(coin, true, e.isFresh || flagFresh);
      OverlayUpdate(BaseView(), cacheCoins, o, e);
      CacheOkUpdate(BaseView(), cacheCoins, o, e);
      UsageUpdate(cacheCoins, o, e);
      cacheCoins := cacheCoins[o := e];
      cachedCoinsUsage := cachedCoinsUsage + e.coin.DynamicMemoryUsage();
      return false;
    }

    /** Spend a coin: the view loses exactly that outpoint, whatever the cached flags were. */
    method SpendCoin(o: OutPoint) returns (ok: bool, moveout: Coin)
      requires Valid()
      modifies repr
      ensures Valid() && BaseView() == old(BaseView()) && hashBlock == old(hashBlock)
      ensures View() == old(View()) - {o}
      ensures old(o in View()) ==> ok && moveout == old(View())[o]
      ensures old(o !in View()) ==> moveout.IsSpent()
      ensures ok <==> old(o in View() || o in cacheCoins)
      ensures ok ==> cacheCoins == if old(o in cacheCoins && cacheCoins[o].isFresh) then old(cacheCoins) - {o}
                                   else old(cacheCoins)[o := Entry(CLEARED, true, false)]
      ensures old(AccountsOk()) ==> AccountsOk()
    {
      hide Overlay, CacheOk, Usage;
      ok := FetchCoin(o);
      moveout := CLEARED;
      if !ok {
        assert View() - {o} == View();
        return;
      }
      FlagsOf(BaseView(), cacheCoins, o);
      OverlayHit(BaseView(), cacheCoins, o);
      moveout := cacheCoins[o].coin;
      cachedCoinsUsage := cachedCoinsUsage - moveout.DynamicMemoryUsage();
      if cacheCoins[o].isFresh {
        OverlayErase(BaseView(), cacheCoins, o);
        CacheOkUpdate(BaseView(), cacheCoins, o, cacheCoins[o]);
        UsageErase(cacheCoins, o);
        cacheCoins := cacheCoins - {o};
      } else {
        var e := Entry(CLEARED, true, false);
        OverlayUpdate(BaseView(), cacheCoins, o, e);
        CacheOkUpdate(BaseView(), cacheCoins, o, e);
        UsageUpdate(cacheCoins, o, e);
        cacheCoins := cacheCoins[o := e];
      }
    }

    /** Drop an unmodified entry. */
    method Uncache(o: OutPoint)
      requires Valid()
      modifies this
      ensures Valid() && View() == old(View()) && BaseView() == old(BaseView()) && hashBlock == old(hashBlock)
      ensures old(AccountsOk()) ==> AccountsOk()
      ensures old(o in cacheCoins && !cacheCoins[o].isDirty && !cacheCoins[o].isFresh) ==> o !in cacheCoins
    {
      hide Overlay, CacheOk, Usage;
      if o in cacheCoins && !cacheCoins[o].isDirty && !cacheCoins[o].isFresh {
        FlagsOf(BaseView(), cacheCoins, o);
        OverlayClean(BaseView(), cacheCoins, o);
        CacheOkUpdate(BaseView(), cacheCoins, o, cacheCoins[o]);
        UsageErase(cacheCoins, o);
        cachedCoinsUsage := cachedCoinsUsage - cacheCoins[o].coin.DynamicMemoryUsage();
        cacheCoins := cacheCoins - {o};
      }
    }

    /** Take over a child's modified entries. The "FRESH flag misapplied" throw is never reached. */
    method BatchWrite(mapCoins: CoinsMap, hashBlockIn: nat)
      requires Valid() && CacheOk(View(), mapCoins)
      modifies this
      ensures Valid() && View() == Overlay(old(View()), mapCoins) && BaseView() == old(BaseView())
      ensures old(AccountsOk()) ==> AccountsOk()
      ensures hashBlock == hashBlockIn && BaseBestBlock() == old(BaseBestBlock())
    {
      hide Overlay, CacheOk, Usage;
      var rest := mapCoins;
      while rest != map[]
        invariant Valid() && BaseView() == old(BaseView())
        invariant CacheOk(View(), rest)
        invariant Overlay(View(), rest) == Overlay(old(View()), mapCoins)
        invariant old(AccountsOk()) ==> AccountsOk()
        decreases rest.Keys
      {
        var o :| o in rest;
        MergeOne(o, rest);
        rest := rest - {o};
      }
      EmptyCache(View());
      hashBlock := hashBlockIn;
    }

    /** The loop body of BatchWrite. */
    method MergeOne(o: OutPoint, rest: CoinsMap)
      requires Valid() && CacheOk(View(), rest) && o in rest
      modifies this`cacheCoins, this`cachedCoinsUsage
      ensures Valid() && BaseView() == old(BaseView())
      ensures cacheCoins == Merge(old(cacheCoins), o, rest[o])
      ensures CacheOk(View(), rest - {o}) && Overlay(View(), rest - {o}) == Overlay(old(View()), rest)
      ensures old(AccountsOk()) ==> AccountsOk()
    {
      hide CacheOk, Usage, Overlay;
      var it := rest[o];
      FlagsOf(View(), rest, o);
      WriteThrough(View(), rest, o);
      MergeWrites(BaseView(), cacheCoins, o, it);
      if !it.isDirty {
        return;
      }
      if o !in cacheCoins {
        if !(it.isFresh && it.coin.IsSpent()) {
          UsageUpdate(cacheCoins, o, Entry(it.coin, true, it.isFresh));
          cachedCoinsUsage := cachedCoinsUsage + it.coin.DynamicMemoryUsage();
          cacheCoins := cacheCoins[o := Entry(it.coin, true, it.isFresh)];
        }
      } else {
        var us := cacheCoins[o];
        assert !(it.isFresh && !us.coin.IsSpent());  // else: throw std::logic_error
        if us.isFresh && it.coin.IsSpent() {
          UsageErase(cacheCoins, o);
          cachedCoinsUsage := cachedCoinsUsage - us.coin.DynamicMemoryUsage();
          cacheCoins := cacheCoins - {o};
        } else {
          UsageUpdate(cacheCoins, o, Entry(it.coin, true, us.isFresh));
          cachedCoinsUsage := cachedCoinsUsage - us.coin.DynamicMemoryUsage() + it.coin.DynamicMemoryUsage();
          cacheCoins := cacheCoins[o := Entry(it.coin, true, us.isFresh)];
        }
      }
    }

    /** Push everything one layer down: no view changes, the layer below now shows what this one showed. */
    method Flush()
      requires Valid()
      requires base == null ==> hashBlock != 0
      modifies repr
      ensures Valid() && View() == old(View()) && BaseView() == old(View())
      ensures cacheCoins == map[] && hashBlock == old(hashBlock)
      ensures base != null ==> base.BaseView() == old(base.BaseView()) && base.hashBlock == hashBlock
      ensures base == null ==> db.bestBlock == hashBlock
      ensures hashBlock != 0 ==> BestBlock() == old(BestBlock())
      ensures hashBlock == 0 ==> BestBlock() == old(base.BaseBestBlock())
      ensures old(AccountsOk()) ==> AccountsOk()
    {
      hide Overlay, CacheOk, Usage;
      ViewUnspent();
      if base == null {
        db.BatchWrite(cacheCoins, hashBlock);
      } else {
        base.BatchWrite(cacheCoins, hashBlock);
      }
      cacheCoins := map[];
      cachedCoinsUsage := 0;
      EmptyCache(BaseView());
      assert hashBlock == 0 ==> base.BestBlock() == base.BaseBestBlock();
    }

    method SetBestBlock(hash: nat)
      requires Valid()
      modifies this
      ensures Valid() && View() == old(View()) && BaseView() == old(BaseView())
      ensures cacheCoins == old(cacheCoins) && hashBlock == hash
      ensures old(AccountsOk()) ==> AccountsOk()
    {
      hashBlock := hash;
    }

    /** The block this view stands for: its own if set, else that of the view below. */
    ghost function BestBlock(): nat
      requires Shape()
      reads repr
      decreases depth, 1
    {
      if hashBlock != 0 then hashBlock else BaseBestBlock()
    }

    ghost function BaseBestBlock(): nat
      requires Shape()
      reads repr
      decreases depth, 0
    {
      if base == null then db.bestBlock else base.BestBlock()
    }

    /** GetBestBlock remembers what it finds below, in every layer it asks. */
    method GetBestBlock() returns (hash: nat)
      requires Shape()
      modifies set c: CoinsViewCache | c in repr :: c`hashBlock
      ensures hash == BestBlock() == old(BestBlock())
      ensures old(hashBlock) == 0 ==> hashBlock == hash
      decreases depth
    {
      if hashBlock == 0 {
        if base == null {
          hashBlock := db.bestBlock;
        } else {
          hashBlock := base.GetBestBlock();
        }
      }
      return hashBlock;
    }

    /** The cache the given number of steps below this one holds nothing. */
    ghost predicate EmptyAt(layer: nat)
      requires Shape() && layer <= depth
      reads repr
      decreases depth
    {
      if layer == 0 then cacheCoins == map[] else base.EmptyAt(layer - 1)
    }

    /** Flush the layer `layer` steps below this one, on behalf of block `tip`; layers above keep their view. */
    method FlushLayer(layer: nat, tip: nat)
      requires Valid() && tip != 0
      modifies repr
      ensures Valid() && View() == old(View())
      ensures layer > 0 ==> BaseView() == old(BaseView()) && cacheCoins == old(cacheCoins)
      ensures layer == 0 ==> BaseView() == old(View()) && cacheCoins == map[]
      ensures layer <= depth ==> EmptyAt(layer)
      ensures old(AccountsOk()) ==> AccountsOk()
      decreases depth
    {
      if layer == 0 {
        SetBestBlock(tip);
        Flush();
      } else if base != null {
        base.FlushLayer(layer - 1, tip);
      }
    }

    /**
     * The cache stack refines the plain map over whole runs: after any sequence of operations on the
     * top layer and flushes anywhere in the stack, it shows and has returned what the map would.
     */
    method Run(ops: seq<Op>) returns (seen: seq<Seen>)
      requires Valid() && AccountsOk() && Allowed(View(), ops)
      modifies repr
      ensures Valid() && AccountsOk()
      ensures View() == ApplyAll(old(View()), ops)
      ensures seen == SeenAll(old(View()), ops)
    {
      hide Overlay, CacheOk, Usage;
      seen := [];
      var i := 0;
      while i < |ops|
        invariant 0 <= i <= |ops|
        invariant Valid() && AccountsOk()
        invariant Allowed(View(), ops[i..])
        invariant ApplyAll(View(), ops[i..]) == ApplyAll(old(View()), ops)
        invariant seen + SeenAll(View(), ops[i..]) == SeenAll(old(View()), ops)
      {
        ghost var rest := ops[i..];
        ghost var before := View();
        assert rest[1..] == ops[i + 1..];
        var s := Step(ops[i]);
        assert seen + [s] + SeenAll(View(), rest[1..]) == seen + SeenAll(before, rest);
        seen := seen + [s];
        i := i + 1;
      }
    }

    method Step(op: Op) returns (s: Seen)
      requires Valid() && AccountsOk() && AllowedOp(View(), op)
      modifies repr
      ensures Valid() && AccountsOk()
      ensures View() == Apply(old(View()), op)
      ensures s == SeenBy(old(View()), op)
    {
      hide Overlay, CacheOk, Usage;
      s := Missing;
      match op {
        case Fetch(o) =>
          var ok, coin := GetCoin(o);
          if ok { s := Found(coin); }
        case Add(o, coin, possibleOverwrite) =>
          var thrown := AddCoin(o, coin, possibleOverwrite);
        case Spend(o) =>
          ViewUnspent();
          var ok, coin := SpendCoin(o);
          if !coin.IsSpent() { s := Found(coin); }
        case Uncache(o) =>
          Uncache(o);
        case Flush(layer, tip) =>
          FlushLayer(layer, tip);
      }
    }
  }

  // ----- runs ---------------------------------------------------------------------------------------

  datatype Op =
    | Fetch(o: OutPoint)
    | Add(o: OutPoint, coin: Coin, possibleOverwrite: bool)
    | Spend(o: OutPoint)
    | Uncache(o: OutPoint)
    | Flush(layer: nat, tip: nat)

  datatype Seen = Missing | Found(coin: Coin)

  /** The same operation on a plain map. */
  ghost function Apply(view: Utxo, op: Op): Utxo {
    match op
    case Add(o, coin, _) => if coin.IsUnspendable() then view else view[o := coin]
    case Spend(o) => view - {o}
    case _ => view
  }

  ghost function SeenBy(view: Utxo, op: Op): Seen {
    match op
    case Fetch(o) => if o in view then Found(view[o]) else Missing
    case Spend(o) => if o in view then Found(view[o]) else Missing
    case _ => Missing
  }

  /** AddCoin's caller contract, and a block hash with every flush. */
  ghost predicate AllowedOp(view: Utxo, op: Op) {
    match op
    case Add(o, coin, possibleOverwrite) => !coin.IsSpent() && (possibleOverwrite || o !in view)
    case Flush(_, tip) => tip != 0
    case _ => true
  }

  ghost function ApplyAll(view: Utxo, ops: seq<Op>): Utxo
    decreases |ops|
  {
    if ops == [] then view else ApplyAll(Apply(view, ops[0]), ops[1..])
  }

  ghost function SeenAll(view: Utxo, ops: seq<Op>): seq<Seen>
    decreases |ops|
  {
    if ops == [] then [] else [SeenBy(view, ops[0])] + SeenAll(Apply(view, ops[0]), ops[1..])
  }

  ghost predicate Allowed(view: Utxo, ops: seq<Op>)
    decreases |ops|
  {
    ops != [] ==> AllowedOp(view, ops[0]) && Allowed(Apply(view, ops[0]), ops[1..])
  }

  /**
   * Why AddCoin needs its caller's word: adding without possibleOverwrite over an unspent coin below
   * marks the entry FRESH, which is dishonest exactly then, and spending it brings the old coin back.
   */
  lemma MisappliedFresh(base: Utxo, cache: CoinsMap, o: OutPoint, coin: Coin)
    requires o !in cache && !coin.IsSpent()
    ensures EntryOk(base, o, Entry(coin, true, true)) <==> o !in base
    ensures var added := cache[o := Entry(coin, true, true)];
            Overlay(base, added - {o}) == Overlay(base, cache) &&
            (Overlay(base, added - {o}) == Overlay(base, added) - {o} <==> o !in base)
  {
    var added := cache[o := Entry(coin, true, true)];
    assert added - {o} == cache;
    OverlayUpdate(base, cache, o, Entry(coin, true, true));
    OverlayMiss(base, cache, o);
  }

  lemma EmptyCache(base: Utxo)
    ensures Overlay(base, map[]) == base && CacheOk(base, map[]) && Usage(map[]) == 0
  {}

  lemma FlagsOf(base: Utxo, cache: CoinsMap, o: OutPoint)
    requires CacheOk(base, cache)
    ensures o in cache ==> EntryOk(base, o, cache[o])
  {}
}
