/**
 * Building a compact block, and rebuilding the block from it with the transactions of the memory pool
 * (CBlockHeaderAndShortTxIDs, PartiallyDownloadedBlock in src/blockencodings.cpp).
 */
module Reconstruction {
  import opened Basics
  import opened CompactBlocks

  const MIN_SERIALIZABLE_TRANSACTION_WEIGHT := 40

  /** Counters of type size_t wrap at this number. */
  const SIZE_RANGE := 0x1_0000_0000_0000_0000

  function Wrap(x: int): int { x % SIZE_RANGE }

  lemma WrapStep(x: int)
    ensures Wrap(0) == 0 && Wrap(Wrap(x) + 1) == Wrap(x + 1) && Wrap(Wrap(x) - 1) == Wrap(x - 1)
  {}

  datatype Tx = Tx(hash: nat, witnessHash: nat)

  /** A possibly null reference to a transaction. */
  type Ref = Option<Tx>

  datatype Prefilled = Prefilled(index: nat, tx: Ref)

  /** The message; shortId is the keyed hash selected by header and nonce. */
  datatype CompactBlock = CompactBlock(headerIsNull: bool, shortId: nat -> nat, shorttxids: seq<nat>, prefilledtxn: seq<Prefilled>)
  {
    function BlockTxCount(): nat { |shorttxids| + |prefilledtxn| }
  }

  datatype ReadStatus = READ_STATUS_OK | READ_STATUS_INVALID | READ_STATUS_FAILED | READ_STATUS_CHECKBLOCK_FAILED

  // ----- counting filled slots ---------------------------------------------------------------------------

  ghost function Filled(a: seq<Ref>, n: nat): (c: nat)
    requires n <= |a|
    ensures c <= n
  {
    if n == 0 then 0 else Filled(a, n - 1) + if a[n - 1].Some? then 1 else 0
  }

  lemma {:induction false} FilledUpdate(a: seq<Ref>, j: nat, x: Ref, n: nat)
    requires j < |a| && n <= |a|
    ensures Filled(a[j := x], n) == Filled(a, n) + if j < n && x.Some? && a[j].None? then 1 else if j < n && x.None? && a[j].Some? then -1 else 0
  {
    if n > 0 {
      FilledUpdate(a, j, x, n - 1);
    }
  }

  lemma {:induction false} FilledMonotone(a: seq<Ref>, m: nat, n: nat)
    requires m <= n <= |a|
    ensures Filled(a, m) <= Filled(a, n) <= Filled(a, m) + (n - m)
  {
    if m < n {
      FilledMonotone(a, m, n - 1);
    }
  }

  lemma {:induction false} FilledNone(n: nat, m: nat)
    requires m <= n
    ensures Filled(seq(n, i => None), m) == 0
  {
    if m > 0 {
      FilledNone(n, m - 1);
    }
  }

  /** The number of empty slots before slot j: which short id belongs there. */
  ghost function Rank(a: seq<Ref>, j: nat): nat
    requires j <= |a|
  {
    j - Filled(a, j)
  }

  /** Different empty slots have different ranks. */
  lemma RankStrict(a: seq<Ref>, i: nat, j: nat)
    requires i < |a| && j < |a| && a[i].None? && a[j].None?
    ensures Rank(a, i) == Rank(a, j) ==> i == j
  {
    if i < j {
      FilledMonotone(a, i + 1, j);
    } else if j < i {
      FilledMonotone(a, j + 1, i);
    }
  }

  // ----- prefilled transactions ----------------------------------------------------------------------------

  /** The position in the block of prefilled transaction k - 1. */
  ghost function Position(p: seq<Prefilled>, k: nat): int
    requires k <= |p|
  {
    if k == 0 then -1 else Position(p, k - 1) + p[k - 1].index + 1
  }

  lemma {:induction false} PositionGrows(p: seq<Prefilled>, i: nat, k: nat)
    requires i < k <= |p|
    ensures Position(p, i) < Position(p, k)
  {
    if i < k - 1 {
      PositionGrows(p, i, k - 1);
    }
  }

  /** The test each prefilled transaction has to pass. */
  ghost predicate PrefilledOk(c: CompactBlock, k: nat)
    requires k < |c.prefilledtxn|
  {
    c.prefilledtxn[k].tx.Some? && Position(c.prefilledtxn, k + 1) <= UINT16_MAX && Position(c.prefilledtxn, k + 1) <= |c.shorttxids| + k
  }

  ghost predicate InPlace(c: CompactBlock, a: seq<Ref>, i: nat)
    requires i < |c.prefilledtxn|
  {
    0 <= Position(c.prefilledtxn, i + 1) < |a| && c.prefilledtxn[i].tx.Some? && a[Position(c.prefilledtxn, i + 1)] == c.prefilledtxn[i].tx
  }

  ghost predicate AllInPlace(c: CompactBlock, a: seq<Ref>, k: nat)
    requires k <= |c.prefilledtxn|
  {
    forall i {:trigger InPlace(c, a, i)} :: 0 <= i < k ==> InPlace(c, a, i)
  }

  ghost predicate IsPosition(c: CompactBlock, k: nat, j: int)
    requires k <= |c.prefilledtxn|
  {
    exists i :: 1 <= i <= k && Position(c.prefilledtxn, i) == j
  }

  /** Exactly the first k prefilled transactions are in place. */
  ghost predicate Placed(c: CompactBlock, a: seq<Ref>, k: nat) {
    && k <= |c.prefilledtxn| && |a| == c.BlockTxCount() && Filled(a, |a|) == k
    && AllInPlace(c, a, k)
    && (forall j :: 0 <= j < |a| && a[j].Some? ==> IsPosition(c, k, j))
  }

  lemma PlacedNext(c: CompactBlock, a: seq<Ref>, k: nat)
    requires Placed(c, a, k) && k < |c.prefilledtxn| && PrefilledOk(c, k)
    ensures 0 <= Position(c.prefilledtxn, k + 1) < |a|
    ensures Placed(c, a[Position(c.prefilledtxn, k + 1) := c.prefilledtxn[k].tx], k + 1)
  {
    hide Filled, Position, InPlace, IsPosition, PrefilledOk;
    PositionsFree(c, a, k);
    var p := Position(c.prefilledtxn, k + 1);
    var a' := a[p := c.prefilledtxn[k].tx];
    FilledUpdate(a, p, c.prefilledtxn[k].tx, |a|);
    forall i {:trigger InPlace(c, a', i)} | 0 <= i < k + 1
      ensures InPlace(c, a', i)
    {
      KeepInPlace(c, a, k, i);
    }
    forall j | 0 <= j < |a'| && a'[j].Some?
      ensures IsPosition(c, k + 1, j)
    {
      MorePositions(c, k, j);
    }
  }

  lemma MorePositions(c: CompactBlock, k: nat, j: int)
    requires k < |c.prefilledtxn|
    ensures IsPosition(c, k, j) || j == Position(c.prefilledtxn, k + 1) ==> IsPosition(c, k + 1, j)
  {
    if IsPosition(c, k, j) {
      var i :| 1 <= i <= k && Position(c.prefilledtxn, i) == j;
      assert i <= k + 1;
    }
  }

  lemma PositionsFree(c: CompactBlock, a: seq<Ref>, k: nat)
    requires Placed(c, a, k) && k < |c.prefilledtxn| && PrefilledOk(c, k)
    ensures 0 <= Position(c.prefilledtxn, k + 1) < |a| && a[Position(c.prefilledtxn, k + 1)].None? && c.prefilledtxn[k].tx.Some?
  {
    hide Filled;
    PositionGrows(c.prefilledtxn, 0, k + 1);
    var p := Position(c.prefilledtxn, k + 1);
    if a[p].Some? {
      assert IsPosition(c, k, p);
      var i :| 1 <= i <= k && Position(c.prefilledtxn, i) == p;
      PositionGrows(c.prefilledtxn, i, k + 1);
    }
  }

  lemma KeepInPlace(c: CompactBlock, a: seq<Ref>, k: nat, i: nat)
    requires Placed(c, a, k) && i <= k < |c.prefilledtxn| && PrefilledOk(c, k) && 0 <= Position(c.prefilledtxn, k + 1) < |a|
    ensures InPlace(c, a[Position(c.prefilledtxn, k + 1) := c.prefilledtxn[k].tx], i)
  {
    hide Filled, Position;
    if i < k {
      assert InPlace(c, a, i);
      PositionGrows(c.prefilledtxn, i + 1, k + 1);
    }
  }

  // ----- the map from short ids to slots ---------------------------------------------------------------------

  /** Every id leads to an empty slot whose rank is a place of that id in the list. */
  ghost predicate Leads(c: CompactBlock, a: seq<Ref>, ids: map<nat, nat>, i: nat) {
    && i <= |c.shorttxids|
    && (forall s :: s in ids ==> LeadsTo(c, a, s, ids[s], i))
    && (forall k :: 0 <= k < i ==> c.shorttxids[k] in ids)
  }

  ghost predicate LeadsTo(c: CompactBlock, a: seq<Ref>, s: nat, j: nat, i: nat) {
    j < |a| && a[j].None? && Rank(a, j) < i <= |c.shorttxids| && c.shorttxids[Rank(a, j)] == s
  }

  /** What the map holds: slots as 16-bit numbers. */
  ghost predicate Stored(c: CompactBlock, a: seq<Ref>, ids: map<nat, nat>, i: nat) {
    && i <= |c.shorttxids|
    && (forall s :: s in ids ==> exists j :: StoredAs(c, a, s, j, ids[s], i))
    && (forall k :: 0 <= k < i ==> c.shorttxids[k] in ids)
  }

  ghost predicate StoredAs(c: CompactBlock, a: seq<Ref>, s: nat, j: nat, v: nat, i: nat) {
    LeadsTo(c, a, s, j, i) && v == j % (UINT16_MAX + 1)
  }

  lemma StoredNext(c: CompactBlock, a: seq<Ref>, ids: map<nat, nat>, i: nat, j: nat)
    requires Stored(c, a, ids, i) && i < |c.shorttxids| && j < |a| && a[j].None? && Rank(a, j) == i
    ensures Stored(c, a, ids[c.shorttxids[i] := j % (UINT16_MAX + 1)], i + 1)
  {
    hide Rank;
    var ids' := ids[c.shorttxids[i] := j % (UINT16_MAX + 1)];
    var n := i + 1;
    forall s | s in ids'
      ensures exists j' :: StoredAs(c, a, s, j', ids'[s], n)
    {
      if s == c.shorttxids[i] {
        assert StoredAs(c, a, s, j, ids'[s], n);
      } else {
        var j' :| StoredAs(c, a, s, j', ids[s], i);
        assert StoredAs(c, a, s, j', ids'[s], n);
      }
    }
  }

  /** Up to 65536 slots the stored positions are the slots. */
  lemma StoredLeads(c: CompactBlock, a: seq<Ref>, ids: map<nat, nat>, i: nat)
    requires Stored(c, a, ids, i) && |a| <= UINT16_MAX + 1
    ensures Leads(c, a, ids, i)
  {
    hide Rank;
    forall s | s in ids
      ensures LeadsTo(c, a, s, ids[s], i)
    {
      var j :| StoredAs(c, a, s, j, ids[s], i);
    }
  }

  lemma StoredRange(c: CompactBlock, a: seq<Ref>, ids: map<nat, nat>, i: nat, s: nat)
    requires Stored(c, a, ids, i) && s in ids
    ensures ids[s] < |a| && ids[s] <= UINT16_MAX
  {
    hide Rank;
    var j :| StoredAs(c, a, s, j, ids[s], i);
  }

  // ----- how far the prefilled transactions reach ------------------------------------------------------------

  ghost predicate AllPrefilledOk(c: CompactBlock) {
    forall k :: 0 <= k < |c.prefilledtxn| ==> PrefilledOk(c, k)
  }

  lemma {:induction false} PositionAtLeast(p: seq<Prefilled>, i: nat, k: nat)
    requires i <= k <= |p|
    ensures Position(p, k) >= Position(p, i) + (k - i)
  {
    if i < k {
      PositionAtLeast(p, i, k - 1);
    }
  }

  /** At most 65536 transactions can be prefilled, and then they are the first ones. */
  lemma PrefilledReach(c: CompactBlock)
    requires AllPrefilledOk(c)
    ensures |c.prefilledtxn| <= UINT16_MAX + 1
    ensures |c.prefilledtxn| == UINT16_MAX + 1 ==> forall k :: 0 <= k <= |c.prefilledtxn| ==> Position(c.prefilledtxn, k) == k - 1
  {
    hide Position;
    var p := c.prefilledtxn;
    if p != [] {
      assert PrefilledOk(c, |p| - 1);
      PositionAtLeast(p, 0, |p|);
      PositionStart(p);
      forall k | 0 <= k <= |p|
        ensures k - 1 <= Position(p, k) <= UINT16_MAX - (|p| - k)
      {
        PositionAtLeast(p, 0, k);
        PositionAtLeast(p, k, |p|);
      }
    }
  }

  lemma PositionStart(p: seq<Prefilled>)
    ensures Position(p, 0) == -1
  {}

  /** Every slot that a 16-bit offset reaches from i is filled: the scan for an empty one goes round for ever. */
  predicate Endless(a: seq<Ref>, i: nat) {
    i + UINT16_MAX < |a| && forall j :: i <= j <= i + UINT16_MAX ==> a[j].Some?
  }

  /** The scan never ends exactly if 65536 transactions are prefilled; it then hangs at the first id. */
  lemma EndlessIff(c: CompactBlock, a: seq<Ref>)
    requires AllPrefilledOk(c) && Placed(c, a, |c.prefilledtxn|)
    ensures Endless(a, 0) <==> |c.prefilledtxn| == UINT16_MAX + 1
  {
    hide Filled, Position, AllPrefilledOk;
    PrefilledReach(c);
    if |c.prefilledtxn| == UINT16_MAX + 1 {
      assert UINT16_MAX < |a|;
      forall j | 0 <= j <= UINT16_MAX
        ensures a[j].Some?
      {
        assert InPlace(c, a, j);
      }
    } else {
      NotEndless(c, a, 0);
    }
  }

  lemma NotEndless(c: CompactBlock, a: seq<Ref>, i: nat)
    requires Placed(c, a, |c.prefilledtxn|) && |c.prefilledtxn| <= UINT16_MAX
    ensures !Endless(a, i)
  {
    hide AllInPlace, IsPosition, Filled;
    if Endless(a, i) {
      FilledAll(a, i, i + UINT16_MAX + 1);
      FilledMonotone(a, i + UINT16_MAX + 1, |a|);
    }
  }

  lemma {:induction false} FilledAll(a: seq<Ref>, i: nat, n: nat)
    requires i <= n <= |a| && forall j :: i <= j < n ==> a[j].Some?
    ensures Filled(a, n) == Filled(a, i) + (n - i)
  {
    if n > i {
      FilledAll(a, i, n - 1);
    }
  }

  /** Slots from 65536 on are never prefilled. */
  lemma HighEmpty(c: CompactBlock, a: seq<Ref>, j: nat)
    requires AllPrefilledOk(c) && Placed(c, a, |c.prefilledtxn|) && UINT16_MAX < j < |a|
    ensures a[j].None?
  {
    hide Filled, Position, AllInPlace;
    forall i | 1 <= i <= |c.prefilledtxn|
      ensures Position(c.prefilledtxn, i) <= UINT16_MAX
    {
      assert PrefilledOk(c, i - 1);
    }
  }

  /** The rank of a slot from 65536 on. */
  lemma {:induction false} HighRank(c: CompactBlock, a: seq<Ref>, j: nat)
    requires AllPrefilledOk(c) && Placed(c, a, |c.prefilledtxn|) && UINT16_MAX < j <= |a|
    ensures Rank(a, j) == j - |c.prefilledtxn|
    decreases |a| - j
  {
    hide AllPrefilledOk, AllInPlace, IsPosition;
    if j < |a| {
      HighEmpty(c, a, j);
      HighRank(c, a, j + 1);
      RankStep(a, j);
    }
  }

  /** The slot p + 65536 is stored as p; if slot p is prefilled, nothing else is. */
  lemma WrappedSlot(c: CompactBlock, a: seq<Ref>, ids: map<nat, nat>, p: nat)
    requires AllPrefilledOk(c) && Placed(c, a, |c.prefilledtxn|) && Stored(c, a, ids, |c.shorttxids|) && Distinct(c.shorttxids)
    requires p + UINT16_MAX + 1 < |a| <= MAX_BLOCK_WEIGHT / MIN_SERIALIZABLE_TRANSACTION_WEIGHT && a[p].Some?
    ensures var r := p + UINT16_MAX + 1 - |c.prefilledtxn|;
            0 <= r < |c.shorttxids| && c.shorttxids[r] in ids && ids[c.shorttxids[r]] == p && Lone(ids, c.shorttxids[r])
  {
    hide AllPrefilledOk, AllInPlace, IsPosition, Filled, Rank;
    var high := p + UINT16_MAX + 1;
    HighEmpty(c, a, high);
    HighRank(c, a, high);
    RankInside(c, a, high);
    var s := c.shorttxids[Rank(a, high)];
    var j :| StoredAs(c, a, s, j, ids[s], |c.shorttxids|);
    RankStrict(a, j, high);
    forall s' | s' in ids && ids[s'] == ids[s]
      ensures s' == s
    {
      var j' :| StoredAs(c, a, s', j', ids[s'], |c.shorttxids|);
      WrappedOnce(j', p);
      RankStrict(a, j', high);
    }
  }

  lemma WrappedOnce(j: nat, p: nat)
    requires j <= MAX_BLOCK_WEIGHT / MIN_SERIALIZABLE_TRANSACTION_WEIGHT && j % (UINT16_MAX + 1) == p
    ensures j == p || j == p + UINT16_MAX + 1
  {}

  lemma RankInside(c: CompactBlock, a: seq<Ref>, j: nat)
    requires Placed(c, a, |c.prefilledtxn|) && j < |a| && a[j].None?
    ensures Rank(a, j) < |c.shorttxids|
  {
    hide AllInPlace, IsPosition, Filled;
    RankStep(a, j);
    RankMonotone(a, j + 1, |a|);
  }

  /** No other id is stored at the same position. */
  ghost predicate Lone(ids: map<nat, nat>, s: nat)
    requires s in ids
  {
    forall s' :: s' in ids && ids[s'] == ids[s] ==> s' == s
  }

  /** The scan for the next empty slot stays within the block and within 16 bits. */
  lemma OffsetFits(c: CompactBlock, a: seq<Ref>, i: nat, offset: nat)
    requires Placed(c, a, |c.prefilledtxn|) && |c.prefilledtxn| <= UINT16_MAX && i < |c.shorttxids|
    requires i + offset <= |a| && Filled(a, i + offset) == offset
    ensures i + offset < |a| && (a[i + offset].Some? ==> offset < UINT16_MAX && Filled(a, i + offset + 1) == offset + 1)
  {
    hide AllInPlace, IsPosition;
    if i + offset < |a| {
      FilledMonotone(a, i + offset + 1, |a|);
    }
  }

  // ----- what the message says about a block --------------------------------------------------------------------

  ghost function IdOf(useWitness: bool, tx: Tx): nat { if useWitness then tx.witnessHash else tx.hash }

  /** The message c describes the block vtx: the prefilled transactions in their places, the rest by id. */
  ghost predicate Describes(c: CompactBlock, vtx: seq<Tx>, useWitness: bool) {
    && |vtx| == c.BlockTxCount()
    && (forall a :: Placed(c, a, |c.prefilledtxn|) ==> SlotsDescribed(c, a, vtx, useWitness))
  }

  ghost predicate SlotsDescribed(c: CompactBlock, a: seq<Ref>, vtx: seq<Tx>, useWitness: bool) {
    forall j :: 0 <= j < |vtx| ==> SlotDescribed(c, a, vtx, useWitness, j)
  }

  ghost predicate SlotDescribed(c: CompactBlock, a: seq<Ref>, vtx: seq<Tx>, useWitness: bool, j: nat) {
    && j < |vtx| && j < |a|
    && if a[j].Some? then a[j].value == vtx[j]
       else Rank(a, j) < |c.shorttxids| && c.shorttxids[Rank(a, j)] == c.shortId(IdOf(useWitness, vtx[j]))
  }

  /** A list of (hash, transaction) pairs in which whatever has the short id of a block transaction is that transaction. */
  ghost predicate NoForeign(shortId: nat -> nat, vtx: seq<Tx>, useWitness: bool, pool: seq<(nat, Tx)>) {
    forall i, j {:trigger pool[i], vtx[j]} :: 0 <= i < |pool| && 0 <= j < |vtx| ==>
      shortId(pool[i].0) == shortId(IdOf(useWitness, vtx[j])) ==> pool[i].1 == vtx[j]
  }

  /** The constructor of a compact block: the coinbase prefilled, ids for the rest. */
  method Compress(vtx: seq<Tx>, shortId: nat -> nat, useWitness: bool) returns (c: CompactBlock)
    requires vtx != []
    ensures !c.headerIsNull && c.shortId == shortId && c.BlockTxCount() == |vtx|
    ensures c.prefilledtxn == [Prefilled(0, Some(vtx[0]))] && PrefilledOk(c, 0)
    ensures Describes(c, vtx, useWitness)
  {
    var shorttxids: seq<nat> := [];
    for i := 1 to |vtx|
      invariant |shorttxids| == i - 1
      invariant forall k :: 0 <= k < i - 1 ==> shorttxids[k] == shortId(IdOf(useWitness, vtx[k + 1]))
    {
      var tx := vtx[i];
      shorttxids := shorttxids + [shortId(if useWitness then tx.witnessHash else tx.hash)];
    }
    c := CompactBlock(false, shortId, shorttxids, [Prefilled(0, Some(vtx[0]))]);
    CompressDescribes(c, vtx, useWitness);
  }

  lemma CompressDescribes(c: CompactBlock, vtx: seq<Tx>, useWitness: bool)
    requires |c.shorttxids| == |vtx| - 1 && c.prefilledtxn == [Prefilled(0, Some(vtx[0]))]
    requires forall k :: 0 <= k < |c.shorttxids| ==> c.shorttxids[k] == c.shortId(IdOf(useWitness, vtx[k + 1]))
    ensures PrefilledOk(c, 0) && Describes(c, vtx, useWitness)
  {
    hide Placed, IdOf;
    assert Position(c.prefilledtxn, 1) == 0;
    forall a | Placed(c, a, |c.prefilledtxn|)
      ensures SlotsDescribed(c, a, vtx, useWitness)
    {
      PlacedSize(c, a);
      forall j | 0 <= j < |vtx|
        ensures SlotDescribed(c, a, vtx, useWitness, j)
      {
        CoinbaseOnly(c, a, j);
      }
    }
  }

  lemma PlacedSize(c: CompactBlock, a: seq<Ref>)
    requires Placed(c, a, |c.prefilledtxn|)
    ensures |a| == c.BlockTxCount()
  {}

  /** With only slot 0 filled, slot j has rank j - 1. */
  lemma CoinbaseOnly(c: CompactBlock, a: seq<Ref>, j: nat)
    requires Placed(c, a, 1) && |c.prefilledtxn| == 1 && c.prefilledtxn[0].index == 0 && j < |a|
    ensures a[0] == c.prefilledtxn[0].tx && (j > 0 ==> a[j].None? && Rank(a, j) == j - 1)
  {
    hide Filled;
    assert Position(c.prefilledtxn, 1) == 0;
    assert InPlace(c, a, 0);
    if j > 0 {
      assert a[j].Some? ==> IsPosition(c, 1, j);
      FilledUpdate(a, 0, None, j);
      assert forall k :: 0 < k < |a| && a[k].Some? ==> IsPosition(c, 1, k);
      AllNone(a[0 := None], j);
    }
  }

  lemma {:induction false} AllNone(a: seq<Ref>, n: nat)
    requires n <= |a| && forall k :: 0 <= k < |a| ==> a[k].None?
    ensures Filled(a, n) == 0
  {
    if n > 0 {
      AllNone(a, n - 1);
    }
  }

  // ----- distinct short ids -----------------------------------------------------------------------------------

  /** The map has as many ids as the list exactly if the list has no id twice. */
  lemma {:induction false} ElementsSize(l: seq<nat>)
    ensures |Elements(l)| <= |l| && (|Elements(l)| == |l| <==> Distinct(l))
  {
    hide Distinct;
    if l != [] {
      var n := |l| - 1;
      ElementsSize(l[..n]);
      DistinctLast(l);
      assert Elements(l) == Elements(l[..n]) + {l[n]};
    } else {
      assert Elements(l) == {};
      DistinctNone();
    }
  }

  lemma DistinctNone()
    ensures Distinct<nat>([])
  {}

  lemma DistinctLast(l: seq<nat>)
    requires l != []
    ensures Distinct(l) <==> Distinct(l[..|l| - 1]) && l[|l| - 1] !in l[..|l| - 1]
  {
    var n := |l| - 1;
    var t := l[..n];
    assert forall i :: 0 <= i < n ==> t[i] == l[i];
    if l[n] in t {
      var i :| 0 <= i < n && t[i] == l[n];
      assert l[i] == l[n];
    }
  }

  lemma MapSize(c: CompactBlock, a: seq<Ref>, ids: map<nat, nat>)
    requires Stored(c, a, ids, |c.shorttxids|)
    ensures |ids| == |c.shorttxids| <==> Distinct(c.shorttxids)
  {
    hide Rank;
    assert ids.Keys == Elements(c.shorttxids) by {
      forall s
        ensures s in ids.Keys <==> s in Elements(c.shorttxids)
      {
        if s in ids {
          var j :| StoredAs(c, a, s, j, ids[s], |c.shorttxids|);
        }
      }
    }
    ElementsSize(c.shorttxids);
  }

  // ----- filling slots from the pool ------------------------------------------------------------------------------

  /** Whatever is available is the transaction of the block. */
  ghost predicate Honest(a: seq<Ref>, vtx: seq<Tx>) {
    |a| == |vtx| && forall j :: 0 <= j < |a| && a[j].Some? ==> a[j].value == vtx[j]
  }

  /** Nothing is taken out of a slot. */
  ghost predicate Grown(a: seq<Ref>, a': seq<Ref>) {
    |a'| == |a| && forall j :: 0 <= j < |a| && a[j].Some? ==> a'[j] == a[j]
  }

  lemma GrownNothing(a: seq<Ref>)
    ensures Grown(a, a)
  {}

  lemma GrownPut(a: seq<Ref>, a': seq<Ref>, j: nat, x: Ref)
    requires Grown(a, a') && j < |a'| && a'[j].None?
    ensures Grown(a, a'[j := x])
  {}

  /** The slots that hold a match. */
  ghost function Matches(a: seq<Ref>, have: seq<bool>): (m: seq<Ref>)
    requires |a| == |have|
    ensures |m| == |a|
  {
    seq(|a|, j requires 0 <= j < |a| => if have[j] then a[j] else None)
  }

  /** The state while slots are filled: base is what the prefilled transactions left. */
  ghost predicate Filling(base: seq<Ref>, ids: map<nat, nat>, a: seq<Ref>, have: seq<bool>, count: int) {
    && |a| == |base| == |have| && count == Filled(Matches(a, have), |a|)
    && (forall j :: 0 <= j < |a| && !have[j] ==> a[j] == base[j])
    && (forall s :: s in ids ==> ids[s] < |base|)
    && (forall j :: 0 <= j < |have| && have[j] ==> j in ids.Values)
  }

  lemma FillingStart(c: CompactBlock, base: seq<Ref>, ids: map<nat, nat>)
    requires Stored(c, base, ids, |c.shorttxids|)
    ensures Filling(base, ids, base, seq(|base|, i => false), 0)
  {
    hide Stored;
    AllNone(Matches(base, seq(|base|, i => false)), |base|);
    forall s | s in ids
      ensures ids[s] < |base|
    {
      StoredRange(c, base, ids, |c.shorttxids|, s);
    }
  }

  /** A first match fills the slot. */
  lemma FillingAdd(base: seq<Ref>, ids: map<nat, nat>, a: seq<Ref>, have: seq<bool>, count: int, s: nat, tx: Tx)
    requires Filling(base, ids, a, have, count) && s in ids && !have[ids[s]]
    ensures Filling(base, ids, a[ids[s] := Some(tx)], have[ids[s] := true], count + 1)
  {
    hide Filled;
    var m := Matches(a, have);
    assert Matches(a[ids[s] := Some(tx)], have[ids[s] := true]) == m[ids[s] := Some(tx)];
    FilledUpdate(m, ids[s], Some(tx), |a|);
  }

  /** A second match empties it again. */
  lemma FillingDrop(base: seq<Ref>, ids: map<nat, nat>, a: seq<Ref>, have: seq<bool>, count: int, s: nat)
    requires Filling(base, ids, a, have, count) && s in ids && have[ids[s]] && a[ids[s]].Some?
    ensures Filling(base, ids, a[ids[s] := None], have, count - 1)
  {
    hide Filled;
    var m := Matches(a, have);
    assert Matches(a[ids[s] := None], have) == m[ids[s] := None];
    FilledUpdate(m, ids[s], None, |a|);
  }

  /** When every position is the slot itself, an empty one, the count is that of newly filled slots. */
  lemma ExactCount(c: CompactBlock, base: seq<Ref>, ids: map<nat, nat>, a: seq<Ref>, have: seq<bool>, count: int)
    requires Filling(base, ids, a, have, count) && Leads(c, base, ids, |c.shorttxids|)
    ensures count == Filled(a, |a|) - Filled(base, |base|)
    ensures forall j :: 0 <= j < |a| && base[j].Some? ==> a[j] == base[j]
  {
    hide Filled, Rank;
    forall j | 0 <= j < |a| && have[j]
      ensures base[j].None?
    {
      var s :| s in ids && ids[s] == j;
      assert LeadsTo(c, base, s, ids[s], |c.shorttxids|);
    }
    var filled := set j: int | 0 <= j < |a| && a[j].Some? && base[j].None?;
    NewlyFilled(base, a, |a|, filled);
    MatchedSize(a, have, filled);
  }

  lemma MatchedSize(a: seq<Ref>, have: seq<bool>, matched: set<int>)
    requires |a| == |have| && forall j :: j in matched <==> 0 <= j < |a| && have[j] && a[j].Some?
    ensures |matched| == Filled(Matches(a, have), |a|)
  {
    hide Filled;
    var none: seq<Ref> := seq(|a|, i => None);
    FilledNone(|a|, |a|);
    NewlyFilled(none, Matches(a, have), |a|, matched);
  }

  // ----- a slot with exactly one match is filled -----------------------------------------------------------------

  /** Entry k is the only one of the first n with short id s. */
  ghost predicate SoleMatch(shortId: nat -> nat, pool: seq<(nat, Tx)>, n: nat, s: nat, k: int) {
    n <= |pool| && 0 <= k < n && forall l :: 0 <= l < n ==> (shortId(pool[l].0) == s <==> l == k)
  }

  ghost predicate SomeMatch(shortId: nat -> nat, pool: seq<(nat, Tx)>, n: nat, s: nat) {
    exists k :: 0 <= k < n && k < |pool| && shortId(pool[k].0) == s
  }

  /** Two of the first n entries have short id s. */
  ghost predicate Ambiguous(shortId: nat -> nat, pool: seq<(nat, Tx)>, n: nat, s: nat) {
    exists k, l :: 0 <= k < l < n && l < |pool| && shortId(pool[k].0) == s && shortId(pool[l].0) == s
  }

  /** After n entries: without a match a slot is as before, a single match is in it, and two leave it empty. */
  ghost predicate SlotScanned(shortId: nat -> nat, pool: seq<(nat, Tx)>, n: nat, s: nat, before: Ref, slot: Ref, touched: bool) {
    && (touched <==> SomeMatch(shortId, pool, n, s))
    && (!touched ==> slot == before)
    && (forall k :: SoleMatch(shortId, pool, n, s, k) ==> slot == Some(pool[k].1))
    && (Ambiguous(shortId, pool, n, s) ==> slot.None?)
  }

  ghost predicate Scanned(c: CompactBlock, ids: map<nat, nat>, pool: seq<(nat, Tx)>, n: nat, base: seq<Ref>, a: seq<Ref>, have: seq<bool>) {
    |a| == |have| == |base| && forall s :: s in ids && Lone(ids, s) ==>
      ids[s] < |a| && SlotScanned(c.shortId, pool, n, s, base[ids[s]], a[ids[s]], have[ids[s]])
  }

  /** Where positions are the slots themselves, ids lead to different ones. */
  lemma LeadsInjective(c: CompactBlock, a: seq<Ref>, ids: map<nat, nat>, s: nat)
    requires Leads(c, a, ids, |c.shorttxids|) && s in ids
    ensures Lone(ids, s)
  {
    hide Rank;
    forall s' | s' in ids && ids[s] == ids[s']
      ensures s == s'
    {
      assert LeadsTo(c, a, s, ids[s], |c.shorttxids|) && LeadsTo(c, a, s', ids[s'], |c.shorttxids|);
    }
  }

  lemma NotScanned(shortId: nat -> nat, pool: seq<(nat, Tx)>, n: nat, s: nat, before: Ref, slot: Ref, touched: bool)
    requires SlotScanned(shortId, pool, n, s, before, slot, touched) && n < |pool| && shortId(pool[n].0) != s
    ensures SlotScanned(shortId, pool, n + 1, s, before, slot, touched)
  {
    assert SomeMatch(shortId, pool, n + 1, s) <==> SomeMatch(shortId, pool, n, s);
    assert Ambiguous(shortId, pool, n + 1, s) <==> Ambiguous(shortId, pool, n, s);
    var n' := n + 1;
    forall k | SoleMatch(shortId, pool, n', s, k)
      ensures slot == Some(pool[k].1)
    {
      assert SoleMatch(shortId, pool, n, s, k);
    }
  }

  lemma FirstScanned(shortId: nat -> nat, pool: seq<(nat, Tx)>, n: nat, s: nat, before: Ref, slot: Ref)
    requires SlotScanned(shortId, pool, n, s, before, slot, false) && n < |pool| && shortId(pool[n].0) == s
    ensures SlotScanned(shortId, pool, n + 1, s, before, Some(pool[n].1), true)
  {
    assert SomeMatch(shortId, pool, n + 1, s);
    assert !Ambiguous(shortId, pool, n + 1, s);
  }

  lemma SecondScanned(shortId: nat -> nat, pool: seq<(nat, Tx)>, n: nat, s: nat, before: Ref, slot: Ref)
    requires SlotScanned(shortId, pool, n, s, before, slot, true) && n < |pool| && shortId(pool[n].0) == s
    ensures SlotScanned(shortId, pool, n + 1, s, before, None, true)
  {
    assert SomeMatch(shortId, pool, n + 1, s);
    var j :| 0 <= j < n && shortId(pool[j].0) == s;
    var n' := n + 1;
    assert forall k :: !SoleMatch(shortId, pool, n', s, k);
  }

  lemma ScannedNone(c: CompactBlock, ids: map<nat, nat>, pool: seq<(nat, Tx)>, a: seq<Ref>)
    requires forall s :: s in ids ==> ids[s] < |a|
    ensures Scanned(c, ids, pool, 0, a, a, seq(|a|, i => false))
  {}

  /** One entry of the pool: only the slot of its own id can change. */
  lemma ScannedStep(c: CompactBlock, ids: map<nat, nat>, pool: seq<(nat, Tx)>, n: nat, base: seq<Ref>,
                    a: seq<Ref>, have: seq<bool>, a': seq<Ref>, have': seq<bool>)
    requires Scanned(c, ids, pool, n, base, a, have) && n < |pool| && forall s :: s in ids ==> ids[s] < |a|
    requires var s := c.shortId(pool[n].0);
             if s !in ids then a' == a && have' == have
             else if !have[ids[s]] then a' == a[ids[s] := Some(pool[n].1)] && have' == have[ids[s] := true]
             else have' == have && a' == a[ids[s] := None]
    ensures Scanned(c, ids, pool, n + 1, base, a', have')
  {
    hide SlotScanned;
    var s0 := c.shortId(pool[n].0);
    forall s | s in ids && Lone(ids, s)
      ensures ids[s] < |a'| && SlotScanned(c.shortId, pool, n + 1, s, base[ids[s]], a'[ids[s]], have'[ids[s]])
    {
      assert SlotScanned(c.shortId, pool, n, s, base[ids[s]], a[ids[s]], have[ids[s]]);
      if s != s0 {
        assert s0 in ids ==> ids[s0] != ids[s];
        NotScanned(c.shortId, pool, n, s, base[ids[s]], a[ids[s]], have[ids[s]]);
      } else if !have[ids[s]] {
        FirstScanned(c.shortId, pool, n, s, base[ids[s]], a[ids[s]]);
      } else {
        SecondScanned(c.shortId, pool, n, s, base[ids[s]], a[ids[s]]);
      }
    }
  }

  // ----- the extra transactions ----------------------------------------------------------------------------------

  /** All of the first m extra transactions with short id s have the witness hash w. */
  ghost predicate SameWitness(shortId: nat -> nat, extra: seq<(nat, Tx)>, m: nat, s: nat, w: nat) {
    forall l :: 0 <= l < m && l < |extra| && shortId(extra[l].0) == s ==> extra[l].1.witnessHash == w
  }

  ghost predicate FirstMatch(shortId: nat -> nat, extra: seq<(nat, Tx)>, m: nat, s: nat, k: int) {
    m <= |extra| && 0 <= k < m && shortId(extra[k].0) == s && forall l :: 0 <= l < k ==> shortId(extra[l].0) != s
  }

  /**
   * After m extra transactions: what the pool put into a slot, or else the first match, is in it, unless some match has
   * another witness hash; then it is empty. What the pool emptied stays empty.
   */
  ghost predicate SlotExtended(shortId: nat -> nat, extra: seq<(nat, Tx)>, m: nat, s: nat, before: Ref, had: bool, slot: Ref, touched: bool) {
    && (touched <==> had || SomeMatch(shortId, extra, m, s))
    && (!touched ==> slot == before)
    && (had ==> slot == if before.Some? && SameWitness(shortId, extra, m, s, before.value.witnessHash) then before else None)
    && (!had ==> forall k :: FirstMatch(shortId, extra, m, s, k) ==>
                   slot == if SameWitness(shortId, extra, m, s, extra[k].1.witnessHash) then Some(extra[k].1) else None)
  }

  ghost predicate Extended(c: CompactBlock, ids: map<nat, nat>, extra: seq<(nat, Tx)>, m: nat, mid: seq<Ref>, had: seq<bool>,
                           a: seq<Ref>, have: seq<bool>) {
    |a| == |have| == |mid| == |had| && forall s :: s in ids && Lone(ids, s) ==>
      ids[s] < |a| && SlotExtended(c.shortId, extra, m, s, mid[ids[s]], had[ids[s]], a[ids[s]], have[ids[s]])
  }

  lemma ExtendedNone(c: CompactBlock, ids: map<nat, nat>, extra: seq<(nat, Tx)>, a: seq<Ref>, have: seq<bool>)
    requires |a| == |have| && forall s :: s in ids ==> ids[s] < |a|
    ensures Extended(c, ids, extra, 0, a, have, a, have)
  {}

  lemma NotExtended(shortId: nat -> nat, extra: seq<(nat, Tx)>, m: nat, s: nat, before: Ref, had: bool, slot: Ref, touched: bool)
    requires SlotExtended(shortId, extra, m, s, before, had, slot, touched) && m < |extra| && shortId(extra[m].0) != s
    ensures SlotExtended(shortId, extra, m + 1, s, before, had, slot, touched)
  {
    var m' := m + 1;
    assert SomeMatch(shortId, extra, m', s) <==> SomeMatch(shortId, extra, m, s);
    assert forall w :: SameWitness(shortId, extra, m', s, w) <==> SameWitness(shortId, extra, m, s, w);
    forall k | FirstMatch(shortId, extra, m', s, k)
      ensures FirstMatch(shortId, extra, m, s, k)
    {
      assert shortId(extra[m].0) != s;
    }
    hide FirstMatch, SameWitness, SomeMatch;
  }

  lemma FirstExtended(shortId: nat -> nat, extra: seq<(nat, Tx)>, m: nat, s: nat, before: Ref, had: bool, slot: Ref)
    requires SlotExtended(shortId, extra, m, s, before, had, slot, false) && m < |extra| && shortId(extra[m].0) == s
    ensures SlotExtended(shortId, extra, m + 1, s, before, had, Some(extra[m].1), true)
  {
    var m' := m + 1;
    assert SomeMatch(shortId, extra, m', s);
    forall k | FirstMatch(shortId, extra, m', s, k)
      ensures k == m
    {}
    assert SameWitness(shortId, extra, m', s, extra[m].1.witnessHash);
  }

  lemma OneMoreWitness(shortId: nat -> nat, extra: seq<(nat, Tx)>, m: nat, s: nat, w: nat)
    requires m < |extra| && shortId(extra[m].0) == s
    ensures SameWitness(shortId, extra, m + 1, s, w) <==> SameWitness(shortId, extra, m, s, w) && extra[m].1.witnessHash == w
  {
    var m' := m + 1;
    assert SameWitness(shortId, extra, m', s, w) ==> extra[m].1.witnessHash == w;
  }

  lemma NextExtended(shortId: nat -> nat, extra: seq<(nat, Tx)>, m: nat, s: nat, before: Ref, had: bool, slot: Ref, slot': Ref)
    requires SlotExtended(shortId, extra, m, s, before, had, slot, true) && m < |extra| && shortId(extra[m].0) == s
    requires slot' == if slot.Some? && slot.value.witnessHash == extra[m].1.witnessHash then slot else None
    ensures SlotExtended(shortId, extra, m + 1, s, before, had, slot', true)
  {
    var m' := m + 1;
    assert SomeMatch(shortId, extra, m', s);
    if had {
      if before.Some? {
        OneMoreWitness(shortId, extra, m, s, before.value.witnessHash);
      }
    } else {
      assert SomeMatch(shortId, extra, m, s);
      forall k | FirstMatch(shortId, extra, m', s, k)
        ensures slot' == if SameWitness(shortId, extra, m', s, extra[k].1.witnessHash) then Some(extra[k].1) else None
      {
        assert FirstMatch(shortId, extra, m, s, k);
        OneMoreWitness(shortId, extra, m, s, extra[k].1.witnessHash);
      }
    }
    hide FirstMatch, SameWitness;
  }

  lemma ExtendedStep(c: CompactBlock, ids: map<nat, nat>, extra: seq<(nat, Tx)>, m: nat, mid: seq<Ref>, had: seq<bool>,
                     a: seq<Ref>, have: seq<bool>, a': seq<Ref>, have': seq<bool>)
    requires Extended(c, ids, extra, m, mid, had, a, have) && m < |extra| && forall s :: s in ids ==> ids[s] < |a|
    requires var s := c.shortId(extra[m].0);
             if s !in ids then a' == a && have' == have
             else if !have[ids[s]] then a' == a[ids[s] := Some(extra[m].1)] && have' == have[ids[s] := true]
             else have' == have &&
                  a' == if a[ids[s]].Some? && a[ids[s]].value.witnessHash != extra[m].1.witnessHash then a[ids[s] := None] else a
    ensures Extended(c, ids, extra, m + 1, mid, had, a', have')
  {
    hide SlotExtended;
    var s0 := c.shortId(extra[m].0);
    forall s | s in ids && Lone(ids, s)
      ensures ids[s] < |a'| && SlotExtended(c.shortId, extra, m + 1, s, mid[ids[s]], had[ids[s]], a'[ids[s]], have'[ids[s]])
    {
      assert SlotExtended(c.shortId, extra, m, s, mid[ids[s]], had[ids[s]], a[ids[s]], have[ids[s]]);
      if s != s0 {
        assert s0 in ids ==> ids[s0] != ids[s];
        NotExtended(c.shortId, extra, m, s, mid[ids[s]], had[ids[s]], a[ids[s]], have[ids[s]]);
      } else if !have[ids[s]] {
        FirstExtended(c.shortId, extra, m, s, mid[ids[s]], had[ids[s]], a[ids[s]]);
      } else {
        NextExtended(c.shortId, extra, m, s, mid[ids[s]], had[ids[s]], a[ids[s]], a'[ids[s]]);
      }
    }
  }

  lemma {:induction false} NewlyFilled(base: seq<Ref>, a: seq<Ref>, n: nat, filled: set<int>)
    requires n <= |a| == |base| && forall j :: 0 <= j < |a| && base[j].Some? ==> a[j].Some?
    requires forall j :: j in filled <==> 0 <= j < n && a[j].Some? && base[j].None?
    ensures |filled| == Filled(a, n) - Filled(base, n)
  {
    if n == 0 {
      assert forall j :: j !in filled;
    } else {
      NewlyFilled(base, a, n - 1, filled - {n - 1});
    }
  }

  lemma {:induction false} ValuesSize(ids: map<nat, nat>)
    ensures |ids.Values| <= |ids|
  {
    if ids != map[] {
      var s :| s in ids;
      ValuesSize(ids - {s});
      assert ids.Values <= (ids - {s}).Values + {ids[s]} by {
        forall v | v in ids.Values
          ensures v in (ids - {s}).Values + {ids[s]}
        {
          var k :| k in ids && ids[k] == v;
          assert k != s ==> k in ids - {s} && (ids - {s})[k] == v;
        }
      }
      SubsetSize(ids.Values, (ids - {s}).Values + {ids[s]});
    } else {
      assert ids.Values == {};
    }
  }

  /** When the count equals the number of ids, every slot is filled. */
  lemma AllFilled(base: seq<Ref>, ids: map<nat, nat>, a: seq<Ref>, have: seq<bool>)
    requires Filling(base, ids, a, have, |ids|)
    ensures forall s :: s in ids ==> ids[s] < |a| && have[ids[s]] && a[ids[s]].Some?
  {
    hide Filled;
    var filled := set j: int | 0 <= j < |a| && have[j] && a[j].Some?;
    MatchedSize(a, have, filled);
    ValuesSize(ids);
    var values: set<int> := set v | v in ids.Values;
    assert values == ids.Values;
    SubsetSize(filled, values);
    forall s | s in ids
      ensures ids[s] < |a| && have[ids[s]] && a[ids[s]].Some?
    {
      assert ids[s] in ids.Values;
      assert ids[s] in values;
    }
  }

  /** At the end of the scan, also an early one, a slot with a single match holds it. */
  lemma OnlyMatchFilled(c: CompactBlock, base: seq<Ref>, ids: map<nat, nat>, pool: seq<(nat, Tx)>, n: nat, a: seq<Ref>, have: seq<bool>, count: int, s: nat, i: nat)
    requires Scanned(c, ids, pool, n, base, a, have) && n <= |pool| && Filling(base, ids, a, have, count)
    requires n == |pool| || count == |ids|
    requires s in ids && Lone(ids, s) && SoleMatch(c.shortId, pool, |pool|, s, i)
    ensures ids[s] < |a| && have[ids[s]] && a[ids[s]] == Some(pool[i].1)
  {
    hide Filled;
    assert SlotScanned(c.shortId, pool, n, s, base[ids[s]], a[ids[s]], have[ids[s]]);
    if count == |ids| {
      AllFilled(base, ids, a, have);
    } else {
      assert SomeMatch(c.shortId, pool, n, s);
    }
    assert SomeMatch(c.shortId, pool, n, s) ==> i < n;
    assert SoleMatch(c.shortId, pool, n, s, i);
  }

  /** In the absence of foreign transactions a match is the right transaction. */
  lemma HonestAdd(c: CompactBlock, vtx: seq<Tx>, useWitness: bool, base: seq<Ref>, ids: map<nat, nat>, a: seq<Ref>, pool: seq<(nat, Tx)>, i: nat)
    requires Describes(c, vtx, useWitness) && Placed(c, base, |c.prefilledtxn|) && Leads(c, base, ids, |c.shorttxids|)
    requires Honest(a, vtx) && NoForeign(c.shortId, vtx, useWitness, pool) && i < |pool| && c.shortId(pool[i].0) in ids
    ensures ids[c.shortId(pool[i].0)] < |a| && Honest(a[ids[c.shortId(pool[i].0)] := Some(pool[i].1)], vtx)
  {
    hide Rank, Placed;
    var s := c.shortId(pool[i].0);
    assert LeadsTo(c, base, s, ids[s], |c.shorttxids|);
    PlacedSize(c, base);
    assert SlotsDescribed(c, base, vtx, useWitness);
    assert SlotDescribed(c, base, vtx, useWitness, ids[s]);
    assert pool[i].1 == vtx[ids[s]];
  }

  /** In the absence of foreign transactions a match with a filled slot is what is in it. */
  lemma HonestMatch(c: CompactBlock, vtx: seq<Tx>, useWitness: bool, base: seq<Ref>, ids: map<nat, nat>, a: seq<Ref>, pool: seq<(nat, Tx)>, i: nat)
    requires Describes(c, vtx, useWitness) && Placed(c, base, |c.prefilledtxn|) && Leads(c, base, ids, |c.shorttxids|)
    requires Honest(a, vtx) && NoForeign(c.shortId, vtx, useWitness, pool) && i < |pool| && c.shortId(pool[i].0) in ids
    ensures ids[c.shortId(pool[i].0)] < |a| && (a[ids[c.shortId(pool[i].0)]].Some? ==> a[ids[c.shortId(pool[i].0)]] == Some(pool[i].1))
  {
    HonestAdd(c, vtx, useWitness, base, ids, a, pool, i);
  }

  /** Every id with a position of its own and a single match in the pool has that match in its slot. */
  ghost predicate MatchesIn(c: CompactBlock, ids: map<nat, nat>, pool: seq<(nat, Tx)>, a: seq<Ref>) {
    forall s, i {:trigger SoleMatch(c.shortId, pool, |pool|, s, i)} :: s in ids && Lone(ids, s) && SoleMatch(c.shortId, pool, |pool|, s, i) ==>
      ids[s] < |a| && a[ids[s]] == Some(pool[i].1)
  }

  lemma ScannedStart(c: CompactBlock, base: seq<Ref>, ids: map<nat, nat>, pool: seq<(nat, Tx)>)
    requires Stored(c, base, ids, |c.shorttxids|)
    ensures Scanned(c, ids, pool, 0, base, base, seq(|base|, i => false))
  {
    hide Stored;
    forall s | s in ids
      ensures ids[s] < |base|
    {
      StoredRange(c, base, ids, |c.shorttxids|, s);
    }
    ScannedNone(c, ids, pool, base);
  }

  lemma ScanEnds(c: CompactBlock, base: seq<Ref>, ids: map<nat, nat>, pool: seq<(nat, Tx)>, n: nat, a: seq<Ref>, have: seq<bool>, count: int)
    requires Scanned(c, ids, pool, n, base, a, have) && n <= |pool| && Filling(base, ids, a, have, count)
    requires n == |pool| || count == |ids|
    ensures MatchesIn(c, ids, pool, a)
  {
    hide Scanned, Filling;
    forall s, i {:trigger SoleMatch(c.shortId, pool, |pool|, s, i)} | s in ids && Lone(ids, s) && SoleMatch(c.shortId, pool, |pool|, s, i)
      ensures ids[s] < |a| && a[ids[s]] == Some(pool[i].1)
    {
      OnlyMatchFilled(c, base, ids, pool, n, a, have, count, s, i);
    }
  }

  /** A block transaction whose id has a single match in the pool is available. */
  ghost predicate UniqueMatchesUsed(shortId: nat -> nat, vtx: seq<Tx>, useWitness: bool, pool: seq<(nat, Tx)>, a: seq<Ref>) {
    |a| == |vtx| &&
    forall j, i {:trigger SoleMatch(shortId, pool, |pool|, shortId(IdOf(useWitness, vtx[j])), i)} ::
      0 <= j < |vtx| && SoleMatch(shortId, pool, |pool|, shortId(IdOf(useWitness, vtx[j])), i) ==> a[j] == Some(vtx[j])
  }

  /** The slot of a block transaction that is not prefilled is the one its id leads to. */
  lemma SlotOfId(c: CompactBlock, vtx: seq<Tx>, useWitness: bool, base: seq<Ref>, ids: map<nat, nat>, j: nat)
    requires Describes(c, vtx, useWitness) && Placed(c, base, |c.prefilledtxn|) && Leads(c, base, ids, |c.shorttxids|)
    requires Distinct(c.shorttxids) && j < |vtx| && j < |base| && base[j].None?
    ensures var s := c.shortId(IdOf(useWitness, vtx[j])); s in ids && ids[s] == j
  {
    hide Rank, Placed;
    assert SlotsDescribed(c, base, vtx, useWitness);
    assert SlotDescribed(c, base, vtx, useWitness, j);
    var s := c.shortId(IdOf(useWitness, vtx[j]));
    assert c.shorttxids[Rank(base, j)] in ids;
    assert LeadsTo(c, base, s, ids[s], |c.shorttxids|);
    RankStrict(base, ids[s], j);
  }

  lemma MatchesUsed(c: CompactBlock, vtx: seq<Tx>, useWitness: bool, base: seq<Ref>, ids: map<nat, nat>, pool: seq<(nat, Tx)>,
                    scanned: seq<Ref>, a: seq<Ref>)
    requires Describes(c, vtx, useWitness) && Placed(c, base, |c.prefilledtxn|) && Leads(c, base, ids, |c.shorttxids|)
    requires Distinct(c.shorttxids) && NoForeign(c.shortId, vtx, useWitness, pool) && MatchesIn(c, ids, pool, scanned)
    requires |scanned| == |base| && (forall j :: 0 <= j < |base| && base[j].Some? ==> scanned[j] == base[j]) && Honest(a, vtx)
    requires Grown(scanned, a)
    ensures UniqueMatchesUsed(c.shortId, vtx, useWitness, pool, a)
  {
    hide Placed, Leads, Describes, Distinct, Filled;
    PlacedSize(c, base);
    DescribedSize(c, vtx, useWitness);
    forall j, i {:trigger SoleMatch(c.shortId, pool, |pool|, c.shortId(IdOf(useWitness, vtx[j])), i)} |
      0 <= j < |vtx| && SoleMatch(c.shortId, pool, |pool|, c.shortId(IdOf(useWitness, vtx[j])), i)
      ensures a[j] == Some(vtx[j])
    {
      if base[j].None? {
        SlotOfId(c, vtx, useWitness, base, ids, j);
        LeadsInjective(c, base, ids, c.shortId(IdOf(useWitness, vtx[j])));
        assert scanned[j] == Some(pool[i].1);
      }
      assert a[j].Some?;
    }
  }

  lemma DescribedSize(c: CompactBlock, vtx: seq<Tx>, useWitness: bool)
    requires Describes(c, vtx, useWitness)
    ensures |vtx| == c.BlockTxCount()
  {}

  /** Could the message be read at all? */
  ghost predicate Acceptable(c: CompactBlock) {
    && !c.headerIsNull && c.BlockTxCount() > 0
    && c.BlockTxCount() <= MAX_BLOCK_WEIGHT / MIN_SERIALIZABLE_TRANSACTION_WEIGHT
    && AllPrefilledOk(c)
  }

  /** What the scan for empty slots leaves no end to. */
  ghost predicate Hangs(c: CompactBlock) {
    |c.prefilledtxn| == UINT16_MAX + 1 && c.shorttxids != []
  }

  /** Prefilled transactions from position n on are in place. */
  ghost predicate InPlaceFrom(c: CompactBlock, a: seq<Ref>, n: int) {
    forall k {:trigger InPlace(c, a, k)} :: 0 <= k < |c.prefilledtxn| && Position(c.prefilledtxn, k + 1) >= n ==> InPlace(c, a, k)
  }

  /** A prefilled transaction at a position that wraps has been replaced by the single match for the slot 65536 further on. */
  ghost predicate Overwritten(c: CompactBlock, pool: seq<(nat, Tx)>, a: seq<Ref>) {
    |c.prefilledtxn| <= UINT16_MAX + 1 && forall k :: 0 <= k < |c.prefilledtxn| ==> ReplacedAt(c, pool, a, k)
  }

  /** The id of the slot 65536 after p. */
  ghost function WrappedId(c: CompactBlock, p: nat): nat
    requires |c.prefilledtxn| <= UINT16_MAX + 1 && p + UINT16_MAX + 1 < c.BlockTxCount()
  {
    c.shorttxids[p + UINT16_MAX + 1 - |c.prefilledtxn|]
  }

  ghost predicate ReplacedAt(c: CompactBlock, pool: seq<(nat, Tx)>, a: seq<Ref>, k: nat)
    requires k < |c.prefilledtxn| <= UINT16_MAX + 1
  {
    var p := Position(c.prefilledtxn, k + 1);
    0 <= p && p + UINT16_MAX + 1 < c.BlockTxCount() ==>
      forall i :: SoleMatch(c.shortId, pool, |pool|, WrappedId(c, p), i) ==> p < |a| && a[p] == Some(pool[i].1)
  }

  // ----- when the scans end ------------------------------------------------------------------------------------------

  /** Every id has a slot of its own. */
  ghost predicate Apart(ids: map<nat, nat>) {
    forall s :: s in ids ==> Lone(ids, s)
  }

  /** After n entries of the pool and m extra transactions the id has a transaction. */
  ghost predicate HeldAfter(shortId: nat -> nat, pool: seq<(nat, Tx)>, n: nat, extra: seq<(nat, Tx)>, m: nat, s: nat) {
    if SomeMatch(shortId, pool, n, s) then
      exists k :: SoleMatch(shortId, pool, n, s, k) && SameWitness(shortId, extra, m, s, pool[k].1.witnessHash)
    else
      exists k :: FirstMatch(shortId, extra, m, s, k) && SameWitness(shortId, extra, m, s, extra[k].1.witnessHash)
  }

  ghost predicate AllHeldAfter(shortId: nat -> nat, ids: map<nat, nat>, pool: seq<(nat, Tx)>, n: nat, extra: seq<(nat, Tx)>, m: nat) {
    forall s :: s in ids ==> HeldAfter(shortId, pool, n, extra, m, s)
  }

  lemma OneOrMore(shortId: nat -> nat, pool: seq<(nat, Tx)>, n: nat, s: nat)
    requires SomeMatch(shortId, pool, n, s) && n <= |pool|
    ensures Ambiguous(shortId, pool, n, s) || exists k :: SoleMatch(shortId, pool, n, s, k)
  {
    var k :| 0 <= k < n && shortId(pool[k].0) == s;
    if l :| 0 <= l < n && l != k && shortId(pool[l].0) == s {
      assert k < l || l < k;
      assert Ambiguous(shortId, pool, n, s);
    } else {
      assert SoleMatch(shortId, pool, n, s, k);
    }
  }

  lemma {:induction false} SomeFirst(shortId: nat -> nat, extra: seq<(nat, Tx)>, m: nat, s: nat)
    requires SomeMatch(shortId, extra, m, s) && m <= |extra|
    ensures exists k :: FirstMatch(shortId, extra, m, s, k)
    decreases m
  {
    var last := m - 1;
    if SomeMatch(shortId, extra, last, s) {
      SomeFirst(shortId, extra, last, s);
      var k :| FirstMatch(shortId, extra, last, s, k);
      assert FirstMatch(shortId, extra, m, s, k);
    } else {
      assert FirstMatch(shortId, extra, m, s, last);
    }
  }

  /** What the scans leave in a slot is a transaction exactly if the id has one. */
  lemma HeldIff(shortId: nat -> nat, pool: seq<(nat, Tx)>, n: nat, extra: seq<(nat, Tx)>, m: nat, s: nat, before: Ref, mid: Ref, slot: Ref, touched: bool)
    requires n <= |pool| && m <= |extra| && SlotScanned(shortId, pool, n, s, before, mid, SomeMatch(shortId, pool, n, s))
    requires SlotExtended(shortId, extra, m, s, mid, SomeMatch(shortId, pool, n, s), slot, touched)
    ensures touched && slot.Some? <==> HeldAfter(shortId, pool, n, extra, m, s)
  {
    hide SoleMatch, FirstMatch, SameWitness, Ambiguous, SomeMatch;
    if SomeMatch(shortId, pool, n, s) {
      OneOrMore(shortId, pool, n, s);
      forall k | SoleMatch(shortId, pool, n, s, k)
        ensures !Ambiguous(shortId, pool, n, s)
      {
        NotBoth(shortId, pool, n, s, k);
      }
    } else if SomeMatch(shortId, extra, m, s) {
      SomeFirst(shortId, extra, m, s);
    } else {
      forall k
        ensures !FirstMatch(shortId, extra, m, s, k)
      {
        NotFirst(shortId, extra, m, s, k);
      }
    }
  }

  lemma NotBoth(shortId: nat -> nat, pool: seq<(nat, Tx)>, n: nat, s: nat, k: int)
    requires SoleMatch(shortId, pool, n, s, k)
    ensures !Ambiguous(shortId, pool, n, s)
  {}

  lemma NotFirst(shortId: nat -> nat, extra: seq<(nat, Tx)>, m: nat, s: nat, k: int)
    requires !SomeMatch(shortId, extra, m, s)
    ensures !FirstMatch(shortId, extra, m, s, k)
  {}

  lemma {:induction false} ApartValues(ids: map<nat, nat>)
    requires Apart(ids)
    ensures |ids.Values| == |ids|
  {
    if ids == map[] {
      assert ids.Values == {};
    } else {
      var s :| s in ids;
      var rest := ids - {s};
      assert Apart(rest) by {
        forall x | x in rest
          ensures Lone(rest, x)
        {
          assert Lone(ids, x);
        }
      }
      ApartValues(rest);
      assert Lone(ids, s);
      assert ids.Values == rest.Values + {ids[s]} by {
        forall v | v in ids.Values
          ensures v in rest.Values + {ids[s]}
        {
          var k :| k in ids && ids[k] == v;
          assert k != s ==> k in rest && rest[k] == v;
        }
      }
      assert ids[s] !in rest.Values;
    }
  }

  /** The count equals the number of ids exactly if every id has a transaction. */
  lemma FullIff(base: seq<Ref>, ids: map<nat, nat>, a: seq<Ref>, have: seq<bool>, count: int)
    requires Filling(base, ids, a, have, count) && Apart(ids)
    ensures count == |ids| <==> forall s :: s in ids ==> ids[s] < |a| && have[ids[s]] && a[ids[s]].Some?
  {
    hide Filled, Apart;
    if count == |ids| {
      AllFilled(base, ids, a, have);
    }
    if forall s :: s in ids ==> ids[s] < |a| && have[ids[s]] && a[ids[s]].Some? {
      var filled := set j: int | 0 <= j < |a| && have[j] && a[j].Some?;
      MatchedSize(a, have, filled);
      ApartValues(ids);
      var values: set<int> := set v | v in ids.Values;
      assert values == ids.Values;
      assert filled == values;
    }
  }

  lemma PoolFullIff(c: CompactBlock, base: seq<Ref>, ids: map<nat, nat>, pool: seq<(nat, Tx)>, n: nat, a: seq<Ref>, have: seq<bool>, count: int)
    requires Filling(base, ids, a, have, count) && Apart(ids) && n <= |pool| && Scanned(c, ids, pool, n, base, a, have)
    ensures count == |ids| <==> AllHeldAfter(c.shortId, ids, pool, n, [], 0)
  {
    hide Filling, SlotScanned, SlotExtended, HeldAfter, Extended, Scanned;
    FillingRange(base, ids, a, have, count);
    FullIff(base, ids, a, have, count);
    ExtendedNone(c, ids, [], a, have);
    forall s | s in ids
      ensures have[ids[s]] && a[ids[s]].Some? <==> HeldAfter(c.shortId, pool, n, [], 0, s)
    {
      ScannedAt(c, ids, pool, n, base, a, have, s);
      ExtendedAt(c, ids, [], 0, a, have, a, have, s);
      HeldIff(c.shortId, pool, n, [], 0, s, base[ids[s]], a[ids[s]], a[ids[s]], have[ids[s]]);
    }
  }

  lemma ExtraFullIff(c: CompactBlock, base: seq<Ref>, ids: map<nat, nat>, pool: seq<(nat, Tx)>, n: nat, mid: seq<Ref>, had: seq<bool>,
                     extra: seq<(nat, Tx)>, m: nat, a: seq<Ref>, have: seq<bool>, count: int)
    requires Filling(base, ids, a, have, count) && Apart(ids) && n <= |pool| && Scanned(c, ids, pool, n, base, mid, had)
    requires m <= |extra| && Extended(c, ids, extra, m, mid, had, a, have)
    ensures count == |ids| <==> AllHeldAfter(c.shortId, ids, pool, n, extra, m)
  {
    hide Filling, SlotScanned, SlotExtended, HeldAfter, Extended, Scanned;
    FillingRange(base, ids, a, have, count);
    FullIff(base, ids, a, have, count);
    forall s | s in ids
      ensures have[ids[s]] && a[ids[s]].Some? <==> HeldAfter(c.shortId, pool, n, extra, m, s)
    {
      ScannedAt(c, ids, pool, n, base, mid, had, s);
      ExtendedAt(c, ids, extra, m, mid, had, a, have, s);
      HeldIff(c.shortId, pool, n, extra, m, s, base[ids[s]], mid[ids[s]], a[ids[s]], have[ids[s]]);
    }
  }

  lemma ScannedAt(c: CompactBlock, ids: map<nat, nat>, pool: seq<(nat, Tx)>, n: nat, base: seq<Ref>, a: seq<Ref>, have: seq<bool>, s: nat)
    requires Scanned(c, ids, pool, n, base, a, have) && Apart(ids) && s in ids
    ensures |a| == |have| == |base| && ids[s] < |a| && have[ids[s]] == SomeMatch(c.shortId, pool, n, s)
    ensures SlotScanned(c.shortId, pool, n, s, base[ids[s]], a[ids[s]], SomeMatch(c.shortId, pool, n, s))
  {
    hide SomeMatch;
  }

  lemma ExtendedAt(c: CompactBlock, ids: map<nat, nat>, extra: seq<(nat, Tx)>, m: nat, mid: seq<Ref>, had: seq<bool>,
                   a: seq<Ref>, have: seq<bool>, s: nat)
    requires Extended(c, ids, extra, m, mid, had, a, have) && Apart(ids) && s in ids
    ensures |a| == |have| == |mid| == |had| && ids[s] < |a|
    ensures SlotExtended(c.shortId, extra, m, s, mid[ids[s]], had[ids[s]], a[ids[s]], have[ids[s]])
  {
    hide SlotExtended;
  }

  /** The slots after placing what is prefilled, the slots of the ids, and how far both scans went. */
  datatype Trace = Trace(base: seq<Ref>, ids: map<nat, nat>, n: nat, mid: seq<Ref>, m: nat)

  ghost predicate AllHeld(ids: map<nat, nat>, a: seq<Ref>) {
    forall s :: s in ids ==> ids[s] < |a| && a[ids[s]].Some?
  }

  ghost predicate IdScanned(c: CompactBlock, pool: seq<(nat, Tx)>, extra: seq<(nat, Tx)>, t: Trace, a: seq<Ref>, s: nat)
    requires s in t.ids
  {
    var p, met := t.ids[s], SomeMatch(c.shortId, pool, t.n, s);
    && p < |a| == |t.base| == |t.mid|
    && SlotScanned(c.shortId, pool, t.n, s, t.base[p], t.mid[p], met)
    && SlotExtended(c.shortId, extra, t.m, s, t.mid[p], met, a[p], met || SomeMatch(c.shortId, extra, t.m, s))
  }

  /**
   * What the two scans did. Each of them went through its list or until every id had a transaction, and no further; a
   * slot without an id is as before, and a slot that belongs to one id holds exactly what the scanned matches of that
   * id put there.
   */
  ghost predicate Scans(c: CompactBlock, pool: seq<(nat, Tx)>, extra: seq<(nat, Tx)>, t: Trace, a: seq<Ref>) {
    && t.n <= |pool| && t.m <= |extra| && |a| == |t.base| == |t.mid|
    && (t.n == |pool| || AllHeld(t.ids, t.mid)) && (t.m == |extra| || AllHeld(t.ids, a))
    && (forall j :: 0 <= j < |a| && j !in t.ids.Values ==> t.base[j] == t.mid[j] == a[j])
    && (forall s :: s in t.ids && Lone(t.ids, s) ==> IdScanned(c, pool, extra, t, a, s))
    && (Apart(t.ids) ==> Soonest(c, pool, extra, t))
  }

  /** While a scan went on, some id had no transaction. */
  ghost predicate Soonest(c: CompactBlock, pool: seq<(nat, Tx)>, extra: seq<(nat, Tx)>, t: Trace) {
    && (forall p {:trigger AllHeldAfter(c.shortId, t.ids, pool, p, [], 0)} :: 1 <= p < t.n ==> !AllHeldAfter(c.shortId, t.ids, pool, p, [], 0))
    && (forall p {:trigger AllHeldAfter(c.shortId, t.ids, pool, t.n, extra, p)} :: 1 <= p < t.m ==> !AllHeldAfter(c.shortId, t.ids, pool, t.n, extra, p))
  }

  /** An id that the pool does not have and the extra transactions have once gets that one, also when the scan ends early. */
  lemma ExtraMatchUsed(c: CompactBlock, pool: seq<(nat, Tx)>, extra: seq<(nat, Tx)>, t: Trace, a: seq<Ref>, s: nat, i: int)
    requires Scans(c, pool, extra, t, a) && s in t.ids && Lone(t.ids, s) && t.ids[s] < |a| && t.base[t.ids[s]].None?
    requires !SomeMatch(c.shortId, pool, |pool|, s) && SoleMatch(c.shortId, extra, |extra|, s, i)
    ensures a[t.ids[s]] == Some(extra[i].1)
  {
    hide SlotScanned, SlotExtended, SameWitness, FirstMatch, SoleMatch;
    var met := SomeMatch(c.shortId, pool, t.n, s);
    assert IdScanned(c, pool, extra, t, a, s) && !met;
    SoleExtended(c.shortId, extra, t.m, s, t.mid[t.ids[s]], a[t.ids[s]], i);
    assert t.mid[t.ids[s]].None? by { NotMet(c.shortId, pool, t.n, s, t.base[t.ids[s]], t.mid[t.ids[s]]); }
  }

  lemma NotMet(shortId: nat -> nat, pool: seq<(nat, Tx)>, n: nat, s: nat, before: Ref, slot: Ref)
    requires SlotScanned(shortId, pool, n, s, before, slot, false)
    ensures slot == before
  {}

  lemma SoleExtended(shortId: nat -> nat, extra: seq<(nat, Tx)>, m: nat, s: nat, before: Ref, slot: Ref, i: int)
    requires SlotExtended(shortId, extra, m, s, before, false, slot, SomeMatch(shortId, extra, m, s)) && m <= |extra|
    requires SoleMatch(shortId, extra, |extra|, s, i)
    ensures (m == |extra| || slot != before) ==> slot == Some(extra[i].1)
  {
    if i < m {
      assert FirstMatch(shortId, extra, m, s, i) && SameWitness(shortId, extra, m, s, extra[i].1.witnessHash);
    } else {
      assert !SomeMatch(shortId, extra, m, s);
    }
  }

  /** Two matches in the pool leave the slot empty, whatever the extra transactions are, unless the scan ends before the second. */
  lemma AmbiguousDropped(c: CompactBlock, pool: seq<(nat, Tx)>, extra: seq<(nat, Tx)>, t: Trace, a: seq<Ref>, s: nat)
    requires Scans(c, pool, extra, t, a) && s in t.ids && Lone(t.ids, s) && Ambiguous(c.shortId, pool, t.n, s)
    ensures t.ids[s] < |a| && a[t.ids[s]].None?
  {
    assert IdScanned(c, pool, extra, t, a, s);
    assert SomeMatch(c.shortId, pool, t.n, s);
  }

  /** A block transaction whose id has no match in the pool and a single one among the extra transactions is available. */
  ghost predicate ExtraMatchesUsed(shortId: nat -> nat, vtx: seq<Tx>, useWitness: bool, pool: seq<(nat, Tx)>, extra: seq<(nat, Tx)>, a: seq<Ref>) {
    |a| == |vtx| &&
    forall j, i {:trigger SoleMatch(shortId, extra, |extra|, shortId(IdOf(useWitness, vtx[j])), i)} ::
      (&& 0 <= j < |vtx| && !SomeMatch(shortId, pool, |pool|, shortId(IdOf(useWitness, vtx[j])))
       && SoleMatch(shortId, extra, |extra|, shortId(IdOf(useWitness, vtx[j])), i)) ==> a[j] == Some(vtx[j])
  }

  lemma ExtrasUsed(c: CompactBlock, vtx: seq<Tx>, useWitness: bool, pool: seq<(nat, Tx)>, extra: seq<(nat, Tx)>, t: Trace, a: seq<Ref>)
    requires Describes(c, vtx, useWitness) && Placed(c, t.base, |c.prefilledtxn|) && Leads(c, t.base, t.ids, |c.shorttxids|)
    requires Distinct(c.shorttxids) && Scans(c, pool, extra, t, a) && Honest(a, vtx)
    requires forall j :: 0 <= j < |t.base| && t.base[j].Some? ==> j < |a| && a[j] == t.base[j]
    ensures ExtraMatchesUsed(c.shortId, vtx, useWitness, pool, extra, a)
  {
    hide Placed, Leads, Describes, Distinct, Filled, SoleMatch, SomeMatch, IdScanned, AllHeld;
    forall j, i {:trigger SoleMatch(c.shortId, extra, |extra|, c.shortId(IdOf(useWitness, vtx[j])), i)} |
      0 <= j < |vtx| && !SomeMatch(c.shortId, pool, |pool|, c.shortId(IdOf(useWitness, vtx[j]))) &&
      SoleMatch(c.shortId, extra, |extra|, c.shortId(IdOf(useWitness, vtx[j])), i)
      ensures a[j] == Some(vtx[j])
    {
      if t.base[j].None? {
        var s := c.shortId(IdOf(useWitness, vtx[j]));
        SlotOfId(c, vtx, useWitness, t.base, t.ids, j);
        LeadsInjective(c, t.base, t.ids, s);
        ExtraMatchUsed(c, pool, extra, t, a, s, i);
      }
      assert a[j].Some?;
    }
  }

  lemma ScansDone(c: CompactBlock, pool: seq<(nat, Tx)>, extra: seq<(nat, Tx)>, t: Trace, had: seq<bool>, midCount: int,
                  a: seq<Ref>, have: seq<bool>, count: int)
    requires t.n <= |pool| && t.m <= |extra| && Filling(t.base, t.ids, t.mid, had, midCount) && Filling(t.base, t.ids, a, have, count)
    requires Scanned(c, t.ids, pool, t.n, t.base, t.mid, had) && Extended(c, t.ids, extra, t.m, t.mid, had, a, have)
    requires (t.n == |pool| || midCount == |t.ids|) && (t.m == |extra| || count == |t.ids|)
    requires Apart(t.ids) ==> Soonest(c, pool, extra, t)
    ensures Scans(c, pool, extra, t, a)
  {
    hide SlotScanned, SlotExtended, SomeMatch, Filled, Apart, Soonest;
    if t.n < |pool| {
      AllFilled(t.base, t.ids, t.mid, had);
    }
    if t.m < |extra| {
      AllFilled(t.base, t.ids, a, have);
    }
    forall s | s in t.ids && Lone(t.ids, s)
      ensures IdScanned(c, pool, extra, t, a, s)
    {
      Touches(c, pool, extra, t, s, had, a, have);
    }
  }

  lemma Touches(c: CompactBlock, pool: seq<(nat, Tx)>, extra: seq<(nat, Tx)>, t: Trace, s: nat, had: seq<bool>, a: seq<Ref>, have: seq<bool>)
    requires Scanned(c, t.ids, pool, t.n, t.base, t.mid, had) && Extended(c, t.ids, extra, t.m, t.mid, had, a, have)
    requires s in t.ids && Lone(t.ids, s)
    ensures IdScanned(c, pool, extra, t, a, s)
  {
    hide SomeMatch;
  }

  class PartiallyDownloadedBlock {
    const pool: seq<(nat, Tx)>
    var headerIsNull: bool
    var txn_available: seq<Ref>
    var prefilled_count: int
    var mempool_count: int
    var extra_count: int

    constructor (pool: seq<(nat, Tx)>)
      ensures this.pool == pool && headerIsNull && txn_available == [] && prefilled_count == mempool_count == extra_count == 0
    {
      this.pool, headerIsNull, txn_available := pool, true, [];
      prefilled_count, mempool_count, extra_count := 0, 0, 0;
    }

    /** The loop over the prefilled transactions: no index leaves the list of slots. */
    method PlacePrefilled(c: CompactBlock) returns (ok: bool)
      requires txn_available == seq(c.BlockTxCount(), i => None)
      modifies this`txn_available
      ensures ok <==> AllPrefilledOk(c)
      ensures ok ==> Placed(c, txn_available, |c.prefilledtxn|)
    {
      hide Placed, Filled;
      PlacedStart(c);
      var lastprefilledindex := -1;
      for i := 0 to |c.prefilledtxn|
        invariant lastprefilledindex == Position(c.prefilledtxn, i) && Placed(c, txn_available, i)
        invariant forall k :: 0 <= k < i ==> PrefilledOk(c, k)
      {
        if c.prefilledtxn[i].tx.None? {
          assert !PrefilledOk(c, i);
          return false;
        }
        lastprefilledindex := lastprefilledindex + c.prefilledtxn[i].index + 1;
        if lastprefilledindex > UINT16_MAX {
          assert !PrefilledOk(c, i);
          return false;
        }
        if lastprefilledindex > |c.shorttxids| + i {
          assert !PrefilledOk(c, i);
          return false;
        }
        PlacedNext(c, txn_available, i);
        txn_available := txn_available[lastprefilledindex := c.prefilledtxn[i].tx];
      }
      return true;
    }

    /** The next empty slot; there is one, and the 16-bit offset does not wrap around on the way. */
    method NextEmpty(c: CompactBlock, i: nat, offset: nat) returns (index_offset: nat)
      requires Placed(c, txn_available, |c.prefilledtxn|) && |c.prefilledtxn| <= UINT16_MAX && i < |c.shorttxids|
      requires i + offset <= |txn_available| && Filled(txn_available, i + offset) == offset
      ensures i + index_offset < |txn_available| && txn_available[i + index_offset].None?
      ensures Filled(txn_available, i + index_offset) == index_offset
    {
      hide Placed, Filled;
      index_offset := offset;
      OffsetFits(c, txn_available, i, index_offset);
      while txn_available[i + index_offset].Some?
        invariant i + index_offset < |txn_available| && Filled(txn_available, i + index_offset) == index_offset
        decreases |txn_available| - index_offset
      {
        OffsetFits(c, txn_available, i, index_offset);
        index_offset := (index_offset + 1) % (UINT16_MAX + 1);
        OffsetFits(c, txn_available, i, index_offset);
      }
    }

    /** The map from short ids to slots; no result if the scan for an empty slot never ends. Positions are stored in 16 bits. */
    method MapShortIds(c: CompactBlock, crowded: nat -> bool) returns (ok: Option<bool>, ids: map<nat, nat>)
      requires Placed(c, txn_available, |c.prefilledtxn|) && AllPrefilledOk(c)
      ensures ok.None? <==> Hangs(c)
      ensures ok == Some(true) ==> Stored(c, txn_available, ids, |c.shorttxids|)
      ensures ok.Some? ==> (ok.value <==> forall i :: 0 <= i < |c.shorttxids| ==> !crowded(i))
    {
      hide Stored, Placed, Filled, Endless, AllPrefilledOk;
      PlacedSize(c, txn_available);
      ids := map[];
      StoredNone(c, txn_available);
      NoneFilled(txn_available);
      EndlessIff(c, txn_available);
      PrefilledReach(c);
      var index_offset := 0;
      for i := 0 to |c.shorttxids|
        invariant 0 <= index_offset && i + index_offset <= |txn_available| && Filled(txn_available, i + index_offset) == index_offset
        invariant Stored(c, txn_available, ids, i) && forall k :: 0 <= k < i ==> !crowded(k)
        invariant i > 0 ==> |c.prefilledtxn| <= UINT16_MAX
      {
        if Endless(txn_available, i) {
          if |c.prefilledtxn| <= UINT16_MAX {
            NotEndless(c, txn_available, i);
          }
          return None, ids;
        }
        index_offset := NextEmpty(c, i, index_offset);
        SkipEmpty(txn_available, i + index_offset);
        StoredNext(c, txn_available, ids, i, i + index_offset);
        ids := ids[c.shorttxids[i] := (i + index_offset) % (UINT16_MAX + 1)];
        if crowded(i) {
          return Some(false), ids;
        }
      }
      return Some(true), ids;
    }

    /** The scan of the memory pool. */
    method ScanPool(c: CompactBlock, ids: map<nat, nat>, ghost base: seq<Ref>, ghost vtx: seq<Tx>, ghost useWitness: bool, ghost good: bool)
      returns (have_txn: seq<bool>, ghost n: nat)
      requires txn_available == base && Stored(c, base, ids, |c.shorttxids|) && mempool_count == 0
      requires good ==> Placed(c, base, |c.prefilledtxn|) && Describes(c, vtx, useWitness) && NoForeign(c.shortId, vtx, useWitness, pool)
      requires good ==> Leads(c, base, ids, |c.shorttxids|)
      modifies this`txn_available, this`mempool_count
      ensures Filling(base, ids, txn_available, have_txn, mempool_count)
      ensures good ==> Honest(txn_available, vtx)
      ensures MatchesIn(c, ids, pool, txn_available)
      ensures n <= |pool| && (n == |pool| || mempool_count == |ids|) && Scanned(c, ids, pool, n, base, txn_available, have_txn)
      ensures Apart(ids) ==> forall p {:trigger AllHeldAfter(c.shortId, ids, pool, p, [], 0)} :: 1 <= p < n ==> !AllHeldAfter(c.shortId, ids, pool, p, [], 0)
    {
      hide Filling, Leads, Stored, Placed, Describes, Honest, NoForeign, Scanned, AllHeldAfter, Apart;
      have_txn, n := seq(|txn_available|, i => false), |pool|;
      FillingStart(c, base, ids);
      ScannedStart(c, base, ids, pool);
      if good {
        HonestStart(c, vtx, useWitness, base);
      }
      for i := 0 to |pool|
        invariant Filling(base, ids, txn_available, have_txn, mempool_count)
        invariant good ==> Honest(txn_available, vtx)
        invariant Scanned(c, ids, pool, i, base, txn_available, have_txn)
        invariant Apart(ids) ==> forall p {:trigger AllHeldAfter(c.shortId, ids, pool, p, [], 0)} :: 1 <= p <= i ==> !AllHeldAfter(c.shortId, ids, pool, p, [], 0)
      {
        ghost var a, have := txn_available, have_txn;
        FillingRange(base, ids, txn_available, have_txn, mempool_count);
        var shortid := c.shortId(pool[i].0);
        if shortid in ids {
          var pos := ids[shortid];
          if !have_txn[pos] {
            FillingAdd(base, ids, txn_available, have_txn, mempool_count, shortid, pool[i].1);
            if good {
              HonestAdd(c, vtx, useWitness, base, ids, txn_available, pool, i);
            }
            txn_available := txn_available[pos := Some(pool[i].1)];
            have_txn := have_txn[pos := true];
            mempool_count := mempool_count + 1;
          } else if txn_available[pos].Some? {
            FillingDrop(base, ids, txn_available, have_txn, mempool_count, shortid);
            HonestDrop(txn_available, vtx, pos);
            txn_available := txn_available[pos := None];
            mempool_count := mempool_count - 1;
          }
        }
        ScannedStep(c, ids, pool, i, base, a, have, txn_available, have_txn);
        if Apart(ids) {
          PoolFullIff(c, base, ids, pool, i + 1, txn_available, have_txn, mempool_count);
        }
        if mempool_count == |ids| {
          n := i + 1;
          ScanEnds(c, base, ids, pool, i + 1, txn_available, have_txn, mempool_count);
          return;
        }
      }
      ScanEnds(c, base, ids, pool, |pool|, txn_available, have_txn, mempool_count);
    }

    /** The scan of the extra transactions; a second match with another witness hash empties the slot. */
    method ScanExtra(c: CompactBlock, ids: map<nat, nat>, extra_txn: seq<(nat, Tx)>, have: seq<bool>, ghost base: seq<Ref>,
                     ghost n: nat, ghost vtx: seq<Tx>, ghost useWitness: bool, ghost good: bool)
      returns (have_txn: seq<bool>, ghost m: nat)
      requires n <= |pool| && Scanned(c, ids, pool, n, base, txn_available, have)
      requires Filling(base, ids, txn_available, have, mempool_count) && extra_count == 0
      requires good ==> Placed(c, base, |c.prefilledtxn|) && Describes(c, vtx, useWitness) && NoForeign(c.shortId, vtx, useWitness, extra_txn)
      requires good ==> Leads(c, base, ids, |c.shorttxids|) && Honest(txn_available, vtx)
      modifies this`txn_available, this`mempool_count, this`extra_count
      ensures Filling(base, ids, txn_available, have_txn, mempool_count)
      ensures extra_txn == [] ==> txn_available == old(txn_available)
      ensures extra_count == Wrap(mempool_count - old(mempool_count))
      ensures m <= |extra_txn| && (m == |extra_txn| || mempool_count == |ids|)
      ensures Extended(c, ids, extra_txn, m, old(txn_available), have, txn_available, have_txn)
      ensures Apart(ids) ==> forall p {:trigger AllHeldAfter(c.shortId, ids, pool, n, extra_txn, p)} :: 1 <= p < m ==> !AllHeldAfter(c.shortId, ids, pool, n, extra_txn, p)
      ensures good ==> Honest(txn_available, vtx)
      ensures good ==> Grown(old(txn_available), txn_available)
    {
      hide Filling, Leads, Placed, Describes, Honest, NoForeign, Extended, Wrap, Grown, Scanned, AllHeldAfter, Apart;
      GrownNothing(txn_available);
      WrapStep(0);
      have_txn, m := have, |extra_txn|;
      FillingRange(base, ids, txn_available, have_txn, mempool_count);
      ExtendedNone(c, ids, extra_txn, txn_available, have_txn);
      for i := 0 to |extra_txn|
        invariant Filling(base, ids, txn_available, have_txn, mempool_count)
        invariant good ==> Honest(txn_available, vtx)
        invariant extra_count == Wrap(mempool_count - old(mempool_count))
        invariant Extended(c, ids, extra_txn, i, old(txn_available), have, txn_available, have_txn)
        invariant Apart(ids) ==> forall p {:trigger AllHeldAfter(c.shortId, ids, pool, n, extra_txn, p)} :: 1 <= p <= i ==> !AllHeldAfter(c.shortId, ids, pool, n, extra_txn, p)
        invariant extra_txn == [] ==> txn_available == old(txn_available)
        invariant good ==> Grown(old(txn_available), txn_available)
      {
        ghost var a0, have0 := txn_available, have_txn;
        have_txn := TakeExtra(c, ids, extra_txn, i, have_txn, base, old(txn_available), old(mempool_count), vtx, useWitness, good);
        ExtendedStep(c, ids, extra_txn, i, old(txn_available), have, a0, have0, txn_available, have_txn);
        if Apart(ids) {
          ExtraFullIff(c, base, ids, pool, n, old(txn_available), have, extra_txn, i + 1, txn_available, have_txn, mempool_count);
        }
        if mempool_count == |ids| {
          m := i + 1;
          break;
        }
      }
    }

    /** One extra transaction. */
    method TakeExtra(c: CompactBlock, ids: map<nat, nat>, extra_txn: seq<(nat, Tx)>, i: nat, have: seq<bool>, ghost base: seq<Ref>,
                     ghost start: seq<Ref>, ghost count: int, ghost vtx: seq<Tx>, ghost useWitness: bool, ghost good: bool)
      returns (have_txn: seq<bool>)
      requires i < |extra_txn| && Filling(base, ids, txn_available, have, mempool_count) && extra_count == Wrap(mempool_count - count)
      requires good ==> Placed(c, base, |c.prefilledtxn|) && Describes(c, vtx, useWitness) && NoForeign(c.shortId, vtx, useWitness, extra_txn)
      requires good ==> Leads(c, base, ids, |c.shorttxids|) && Honest(txn_available, vtx) && Grown(start, txn_available)
      modifies this`txn_available, this`mempool_count, this`extra_count
      ensures Filling(base, ids, txn_available, have_txn, mempool_count) && extra_count == Wrap(mempool_count - count)
      ensures good ==> Honest(txn_available, vtx) && Grown(start, txn_available)
      ensures (forall s :: s in ids ==> ids[s] < |old(txn_available)|) && |have| == |old(txn_available)|
      ensures var s := c.shortId(extra_txn[i].0);
              if s !in ids then txn_available == old(txn_available) && have_txn == have
              else if !have[ids[s]] then txn_available == old(txn_available)[ids[s] := Some(extra_txn[i].1)] && have_txn == have[ids[s] := true]
              else have_txn == have && var slot := old(txn_available)[ids[s]];
                   txn_available == if slot.Some? && slot.value.witnessHash != extra_txn[i].1.witnessHash then old(txn_available)[ids[s] := None] else old(txn_available)
    {
      hide Filling, Leads, Placed, Describes, Honest, NoForeign, Wrap, Grown;
      have_txn := have;
      WrapStep(mempool_count - count);
      FillingRange(base, ids, txn_available, have_txn, mempool_count);
      var shortid := c.shortId(extra_txn[i].0);
      if shortid in ids {
        var pos := ids[shortid];
        if !have_txn[pos] {
          FillingAdd(base, ids, txn_available, have_txn, mempool_count, shortid, extra_txn[i].1);
          if good {
            Untouched(c, base, ids, txn_available, have_txn, mempool_count, shortid);
            HonestAdd(c, vtx, useWitness, base, ids, txn_available, extra_txn, i);
            GrownPut(start, txn_available, pos, Some(extra_txn[i].1));
          }
          txn_available := txn_available[pos := Some(extra_txn[i].1)];
          have_txn := have_txn[pos := true];
          mempool_count := mempool_count + 1;
          extra_count := Wrap(extra_count + 1);
        } else if txn_available[pos].Some? && txn_available[pos].value.witnessHash != extra_txn[i].1.witnessHash {
          if good {
            HonestMatch(c, vtx, useWitness, base, ids, txn_available, extra_txn, i);
          }
          FillingDrop(base, ids, txn_available, have_txn, mempool_count, shortid);
          HonestDrop(txn_available, vtx, pos);
          txn_available := txn_available[pos := None];
          mempool_count := mempool_count - 1;
          extra_count := Wrap(extra_count - 1);
        }
      }
    }

    /**
     * InitData, for every message. It does not return exactly if 65536 transactions are prefilled and there is
     * an id to place. Otherwise the message is refused exactly when it is malformed, and given up exactly when
     * ids are distributed unevenly or collide. Positions are 16 bits wide: with up to 65536 transactions every
     * slot is prefilled, matched or missing, the count of matched slots is exact, and with an honest message
     * and no foreign matches every available transaction is the one of the block. With more, the slots from
     * 65536 on stay empty, and their matches replace what is prefilled 65536 places before.
     */
    method InitData(c: CompactBlock, extra_txn: seq<(nat, Tx)>, crowded: nat -> bool, ghost vtx: seq<Tx>, ghost useWitness: bool)
      returns (status: Option<ReadStatus>, ghost t: Trace)
      requires headerIsNull && txn_available == [] && mempool_count == 0 && extra_count == 0
      modifies this
      ensures status.None? <==> Acceptable(c) && Hangs(c)
      ensures status == Some(READ_STATUS_INVALID) <==> !Acceptable(c)
      ensures status == Some(READ_STATUS_OK) <==>
                Acceptable(c) && !Hangs(c) && (forall i :: 0 <= i < |c.shorttxids| ==> !crowded(i)) && Distinct(c.shorttxids)
      ensures status != Some(READ_STATUS_CHECKBLOCK_FAILED)
      ensures status == Some(READ_STATUS_OK) ==>
                && !headerIsNull && |txn_available| == c.BlockTxCount() && prefilled_count == |c.prefilledtxn|
                && (forall j :: UINT16_MAX < j < |txn_available| ==> txn_available[j].None?)
                && InPlaceFrom(c, txn_available, |txn_available| - (UINT16_MAX + 1))
                && (extra_txn == [] ==> Overwritten(c, pool, txn_available))
      ensures status == Some(READ_STATUS_OK) ==>
                && Placed(c, t.base, |c.prefilledtxn|) && Stored(c, t.base, t.ids, |c.shorttxids|)
                && Scans(c, pool, extra_txn, t, txn_available)
      ensures status == Some(READ_STATUS_OK) && c.BlockTxCount() <= UINT16_MAX + 1 ==>
                && mempool_count == Filled(txn_available, |txn_available|) - prefilled_count && AllInPlace(c, txn_available, |c.prefilledtxn|)
                && extra_count == Wrap(Filled(txn_available, |txn_available|) - Filled(t.mid, |t.mid|))
      ensures status == Some(READ_STATUS_OK) && c.BlockTxCount() <= UINT16_MAX + 1 && Describes(c, vtx, useWitness) ==>
                NoForeign(c.shortId, vtx, useWitness, pool) && NoForeign(c.shortId, vtx, useWitness, extra_txn) ==>
                Honest(txn_available, vtx) && UniqueMatchesUsed(c.shortId, vtx, useWitness, pool, txn_available) &&
                ExtraMatchesUsed(c.shortId, vtx, useWitness, pool, extra_txn, txn_available)
    {
      hide Leads, Stored, Placed, Describes, Honest, NoForeign, Distinct, AllInPlace, Filled, UniqueMatchesUsed, ExtraMatchesUsed,
        InPlaceFrom, Overwritten, Scans, Wrap, Acceptable, Hangs;
      t := Trace([], map[], 0, [], 0);
      var ids;
      status, ids := Prepare(c, crowded);
      if status == Some(READ_STATUS_OK) {
        t := FillSlots(c, extra_txn, ids, vtx, useWitness);
      }
    }

    /** The tests, the prefilled transactions and the map of short ids. */
    method Prepare(c: CompactBlock, crowded: nat -> bool) returns (status: Option<ReadStatus>, ids: map<nat, nat>)
      requires headerIsNull && txn_available == []
      modifies this`headerIsNull, this`txn_available, this`prefilled_count
      ensures status.None? <==> Acceptable(c) && Hangs(c)
      ensures status == Some(READ_STATUS_INVALID) <==> !Acceptable(c)
      ensures status == Some(READ_STATUS_OK) <==>
                Acceptable(c) && !Hangs(c) && (forall i :: 0 <= i < |c.shorttxids| ==> !crowded(i)) && Distinct(c.shorttxids)
      ensures status != Some(READ_STATUS_CHECKBLOCK_FAILED)
      ensures status == Some(READ_STATUS_OK) ==> !headerIsNull && prefilled_count == |c.prefilledtxn|
      ensures status == Some(READ_STATUS_OK) ==> Placed(c, txn_available, |c.prefilledtxn|) && Stored(c, txn_available, ids, |c.shorttxids|)
    {
      hide Stored, Placed, Distinct, AllPrefilledOk;
      ids := map[];
      if c.headerIsNull || (c.shorttxids == [] && c.prefilledtxn == []) {
        return Some(READ_STATUS_INVALID), ids;
      }
      if |c.shorttxids| + |c.prefilledtxn| > MAX_BLOCK_WEIGHT / MIN_SERIALIZABLE_TRANSACTION_WEIGHT {
        return Some(READ_STATUS_INVALID), ids;
      }
      assert headerIsNull && txn_available == [];
      headerIsNull := false;
      txn_available := seq(c.BlockTxCount(), i => None);
      var ok := PlacePrefilled(c);
      if !ok {
        return Some(READ_STATUS_INVALID), ids;
      }
      prefilled_count := |c.prefilledtxn|;
      var mapped;
      mapped, ids := MapShortIds(c, crowded);
      if mapped.None? {
        return None, ids;
      }
      if !mapped.value {
        return Some(READ_STATUS_FAILED), ids;
      }
      MapSize(c, txn_available, ids);
      if |ids| != |c.shorttxids| {
        return Some(READ_STATUS_FAILED), ids;
      }
      return Some(READ_STATUS_OK), ids;
    }

    /** Both scans. */
    method FillSlots(c: CompactBlock, extra_txn: seq<(nat, Tx)>, ids: map<nat, nat>, ghost vtx: seq<Tx>, ghost useWitness: bool)
      returns (ghost t: Trace)
      requires Placed(c, txn_available, |c.prefilledtxn|) && Stored(c, txn_available, ids, |c.shorttxids|)
      requires Acceptable(c) && mempool_count == 0 && extra_count == 0 && Distinct(c.shorttxids)
      modifies this`txn_available, this`mempool_count, this`extra_count
      ensures |txn_available| == c.BlockTxCount() && (forall j :: UINT16_MAX < j < |txn_available| ==> txn_available[j].None?)
      ensures InPlaceFrom(c, txn_available, |txn_available| - (UINT16_MAX + 1)) && (extra_txn == [] ==> Overwritten(c, pool, txn_available))
      ensures Placed(c, t.base, |c.prefilledtxn|) && Stored(c, t.base, t.ids, |c.shorttxids|) && Scans(c, pool, extra_txn, t, txn_available)
      ensures c.BlockTxCount() <= UINT16_MAX + 1 ==>
                && mempool_count == Filled(txn_available, |txn_available|) - |c.prefilledtxn| && AllInPlace(c, txn_available, |c.prefilledtxn|)
                && extra_count == Wrap(Filled(txn_available, |txn_available|) - Filled(t.mid, |t.mid|))
      ensures c.BlockTxCount() <= UINT16_MAX + 1 && Describes(c, vtx, useWitness) ==>
                NoForeign(c.shortId, vtx, useWitness, pool) && NoForeign(c.shortId, vtx, useWitness, extra_txn) ==>
                Honest(txn_available, vtx) && UniqueMatchesUsed(c.shortId, vtx, useWitness, pool, txn_available) &&
                ExtraMatchesUsed(c.shortId, vtx, useWitness, pool, extra_txn, txn_available)
    {
      hide Filling, Leads, Stored, Placed, Describes, Honest, NoForeign, Distinct, AllInPlace, AllPrefilledOk, Filled, MatchesIn, UniqueMatchesUsed,
        ExtraMatchesUsed, InPlaceFrom, Overwritten, Scans, Scanned, Extended, Wrap, Apart, AllHeldAfter;
      ghost var base := txn_available;
      PlacedSize(c, base);
      ghost var narrow := c.BlockTxCount() <= UINT16_MAX + 1;
      ghost var good := narrow && Describes(c, vtx, useWitness) && NoForeign(c.shortId, vtx, useWitness, pool) && NoForeign(c.shortId, vtx, useWitness, extra_txn);
      if narrow {
        StoredLeads(c, base, ids, |c.shorttxids|);
      }
      var have_txn;
      ghost var n, m;
      have_txn, n := ScanPool(c, ids, base, vtx, useWitness, good);
      ghost var scanned, have0, count := txn_available, have_txn, mempool_count;
      have_txn, m := ScanExtra(c, ids, extra_txn, have_txn, base, n, vtx, useWitness, good);
      t := Trace(base, ids, n, scanned, m);
      ScansDone(c, pool, extra_txn, t, have0, count, txn_available, have_txn, mempool_count);
      WideDone(c, base, ids, txn_available, have_txn, mempool_count);
      if extra_txn == [] {
        MatchesOverwrite(c, base, ids, pool, txn_available);
      }
      if narrow {
        FillingDone(c, base, ids, txn_available, have_txn, mempool_count);
        FillingDone(c, base, ids, scanned, have0, count);
      }
      if good {
        MatchesUsed(c, vtx, useWitness, base, ids, pool, scanned, txn_available);
        ExtrasUsed(c, vtx, useWitness, pool, extra_txn, t, txn_available);
      }
    }

    /**
     * FillBlock: empty slots take the missing transactions in order. Too few of them, or too many, are
     * refused; otherwise the outcome is that of checking the filled block.
     */
    method FillBlock(vtx_missing: seq<Tx>, check: seq<Tx> -> ReadStatus) returns (status: ReadStatus, block: seq<Tx>)
      requires !headerIsNull
      modifies this
      ensures var n, a := |old(txn_available)|, old(txn_available);
              var need := Rank(a, n);
              if |vtx_missing| != need then
                && status == READ_STATUS_INVALID && (headerIsNull <==> |vtx_missing| > need)
                && (if |vtx_missing| > need then txn_available == [] else GivenUp(a, txn_available, |vtx_missing|))
              else
                headerIsNull && txn_available == [] && block == Merged(a, vtx_missing, n) && status == check(block)
    {
      hide Filled;
      ghost var a := txn_available;
      ghost var n := |txn_available|;
      block := [];
      var tx_missing_offset := 0;
      NoneFilled(a);
      for i := 0 to |txn_available|
        invariant |txn_available| == n && !headerIsNull && forall j :: i <= j < n ==> txn_available[j] == a[j]
        invariant tx_missing_offset == Rank(a, i) <= |vtx_missing|
        invariant forall j :: 0 <= j < i ==> txn_available[j].None?
        invariant block == Merged(a, vtx_missing, i)
      {
        RankStep(a, i);
        RankMonotone(a, i + 1, n);
        if txn_available[i].None? {
          if |vtx_missing| <= tx_missing_offset {
            return READ_STATUS_INVALID, block;
          }
          block := block + [vtx_missing[tx_missing_offset]];
          tx_missing_offset := tx_missing_offset + 1;
        } else {
          block := block + [txn_available[i].value];
          txn_available := txn_available[i := None];
        }
      }
      headerIsNull := true;
      txn_available := [];
      if |vtx_missing| != tx_missing_offset {
        return READ_STATUS_INVALID, block;
      }
      status := check(block);
    }
  }

  ghost predicate EmptiedBefore(a: seq<Ref>, a': seq<Ref>, p: nat) {
    |a'| == |a| && forall j :: 0 <= j < |a| ==> a'[j] == if j < p then None else a[j]
  }

  /** Everything before the first empty slot that no missing transaction is left for has been taken out. */
  ghost predicate GivenUp(a: seq<Ref>, a': seq<Ref>, missing: nat) {
    |a'| == |a| && exists p: nat :: p < |a| && a[p].None? && Rank(a, p) == missing && EmptiedBefore(a, a', p)
  }

  /** The first n slots with the missing transactions filled in, in order. */
  ghost function Merged(a: seq<Ref>, missing: seq<Tx>, n: nat): seq<Tx>
    requires n <= |a| && Rank(a, n) <= |missing|
    decreases n
  {
    if n == 0 then [] else
    RankStep(a, n - 1);
    Merged(a, missing, n - 1) + [if a[n - 1].Some? then a[n - 1].value else missing[Rank(a, n - 1)]]
  }

  lemma RankStep(a: seq<Ref>, i: nat)
    requires i < |a|
    ensures Rank(a, i + 1) == Rank(a, i) + if a[i].None? then 1 else 0
  {}

  lemma RankMonotone(a: seq<Ref>, i: nat, j: nat)
    requires i <= j <= |a|
    ensures Rank(a, i) <= Rank(a, j)
  {
    FilledMonotone(a, i, j);
  }

  /** The block transactions of the empty slots among the first n, in order. */
  ghost function Missing(a: seq<Ref>, vtx: seq<Tx>, n: nat): (m: seq<Tx>)
    requires n <= |a| == |vtx|
    ensures |m| == Rank(a, n)
  {
    if n == 0 then [] else
    RankStep(a, n - 1);
    Missing(a, vtx, n - 1) + if a[n - 1].None? then [vtx[n - 1]] else []
  }

  /** The transaction of an empty slot is found at its rank in the list of missing ones. */
  lemma {:induction false} MissingAt(a: seq<Ref>, vtx: seq<Tx>, n: nat, j: nat)
    requires j < n <= |a| == |vtx| && a[j].None?
    ensures Rank(a, j) < |Missing(a, vtx, n)| && Missing(a, vtx, n)[Rank(a, j)] == vtx[j]
  {
    hide Rank;
    RankStep(a, n - 1);
    if j < n - 1 {
      MissingAt(a, vtx, n - 1, j);
    }
  }

  /** Filling the empty slots with the missing transactions in order gives the block. */
  lemma {:induction false} MergedIsBlock(a: seq<Ref>, vtx: seq<Tx>, n: nat)
    requires Honest(a, vtx) && n <= |a|
    ensures Rank(a, n) <= |Missing(a, vtx, |a|)| && Merged(a, Missing(a, vtx, |a|), n) == vtx[..n]
  {
    hide Rank, Missing;
    RankMonotone(a, n, |a|);
    if n > 0 {
      RankStep(a, n - 1);
      MergedIsBlock(a, vtx, n - 1);
      if a[n - 1].None? {
        MissingAt(a, vtx, |a|, n - 1);
      }
      assert vtx[..n] == vtx[..n - 1] + [vtx[n - 1]];
    } else {
      assert vtx[..0] == [];
    }
  }

  lemma FillingDone(c: CompactBlock, base: seq<Ref>, ids: map<nat, nat>, a: seq<Ref>, have: seq<bool>, count: int)
    requires Filling(base, ids, a, have, count) && Leads(c, base, ids, |c.shorttxids|) && Placed(c, base, |c.prefilledtxn|)
    ensures |a| == |base| == c.BlockTxCount() && count == Filled(a, |a|) - |c.prefilledtxn| && AllInPlace(c, a, |c.prefilledtxn|)
    ensures forall j :: 0 <= j < |base| && base[j].Some? ==> a[j] == base[j]
  {
    hide Filled, Leads;
    ExactCount(c, base, ids, a, have, count);
    forall i {:trigger InPlace(c, a, i)} | 0 <= i < |c.prefilledtxn|
      ensures InPlace(c, a, i)
    {
      assert InPlace(c, base, i);
    }
  }

  /** Whatever the size: only slots below 65536 change, and prefilled ones only where positions wrap. */
  lemma WideDone(c: CompactBlock, base: seq<Ref>, ids: map<nat, nat>, a: seq<Ref>, have: seq<bool>, count: int)
    requires Filling(base, ids, a, have, count) && Stored(c, base, ids, |c.shorttxids|) && Placed(c, base, |c.prefilledtxn|) && Acceptable(c)
    ensures |a| == |base| == c.BlockTxCount() && (forall j :: UINT16_MAX < j < |a| ==> a[j].None?)
    ensures InPlaceFrom(c, a, |a| - (UINT16_MAX + 1))
  {
    hide Filled, Stored, IsPosition, InPlace, Position;
    forall j | UINT16_MAX < j < |a|
      ensures a[j].None?
    {
      HighEmpty(c, base, j);
      if have[j] {
        var s :| s in ids && ids[s] == j;
        StoredRange(c, base, ids, |c.shorttxids|, s);
      }
    }
    forall k {:trigger InPlace(c, a, k)} | 0 <= k < |c.prefilledtxn| && Position(c.prefilledtxn, k + 1) >= |a| - (UINT16_MAX + 1)
      ensures InPlace(c, a, k)
    {
      assert InPlace(c, base, k);
      KeptInPlace(c, base, ids, a, have, count, k);
    }
  }

  lemma KeptInPlace(c: CompactBlock, base: seq<Ref>, ids: map<nat, nat>, a: seq<Ref>, have: seq<bool>, count: int, k: nat)
    requires Filling(base, ids, a, have, count) && Stored(c, base, ids, |c.shorttxids|)
    requires k < |c.prefilledtxn| && InPlace(c, base, k) && Position(c.prefilledtxn, k + 1) >= |a| - (UINT16_MAX + 1)
    requires |a| <= MAX_BLOCK_WEIGHT / MIN_SERIALIZABLE_TRANSACTION_WEIGHT
    ensures InPlace(c, a, k)
  {
    hide Filled, Rank, Position;
    var p := Position(c.prefilledtxn, k + 1);
    if have[p] {
      var s :| s in ids && ids[s] == p;
      var j :| StoredAs(c, base, s, j, ids[s], |c.shorttxids|);
      WrappedOnce(j, p);
    }
  }

  lemma MatchesOverwrite(c: CompactBlock, base: seq<Ref>, ids: map<nat, nat>, pool: seq<(nat, Tx)>, a: seq<Ref>)
    requires Stored(c, base, ids, |c.shorttxids|) && Placed(c, base, |c.prefilledtxn|) && Acceptable(c) && Distinct(c.shorttxids)
    requires MatchesIn(c, ids, pool, a)
    ensures Overwritten(c, pool, a)
  {
    hide Filled, Stored, IsPosition, Position, Distinct, AllPrefilledOk;
    PrefilledReach(c);
    forall k | 0 <= k < |c.prefilledtxn|
      ensures ReplacedAt(c, pool, a, k)
    {
      assert InPlace(c, base, k);
      var p := Position(c.prefilledtxn, k + 1);
      if p + UINT16_MAX + 1 < c.BlockTxCount() {
        WrappedSlot(c, base, ids, p);
        var s := WrappedId(c, p);
        assert forall i :: SoleMatch(c.shortId, pool, |pool|, s, i) ==> ids[s] < |a| && a[ids[s]] == Some(pool[i].1);
      }
    }
  }

  /**
   * Sending a block: its compact form is always accepted; unless ids collide or crowd together, asking for
   * the missing transactions and filling them in rebuilds exactly the block, if the pools hold no foreign
   * transaction with the short id of one of its transactions.
   */
  method Transmit(vtx: seq<Tx>, shortId: nat -> nat, useWitness: bool, pool: seq<(nat, Tx)>, extra: seq<(nat, Tx)>,
                  crowded: nat -> bool, check: seq<Tx> -> ReadStatus) returns (status: ReadStatus, block: seq<Tx>)
    requires vtx != []
    ensures |vtx| <= UINT16_MAX + 1 && NoForeign(shortId, vtx, useWitness, pool) && NoForeign(shortId, vtx, useWitness, extra) ==>
              status == READ_STATUS_FAILED || (block == vtx && status == check(vtx))
  {
    hide NoForeign, Describes, Honest, Filled, Acceptable, AllInPlace, Distinct, Merged, Missing, Rank, InPlaceFrom, Overwritten, UniqueMatchesUsed, ExtraMatchesUsed, Scans, Stored, Placed;
    var c := Compress(vtx, shortId, useWitness);
    AcceptableIf(c);
    var partial := new PartiallyDownloadedBlock(pool);
    var read;
    ghost var t;
    read, t := partial.InitData(c, extra, crowded, vtx, useWitness);
    block := [];
    status := read.value;
    if status != READ_STATUS_OK {
      return;
    }
    var a := partial.txn_available;
    var missing: seq<Tx> := [];
    MissingNone(a, vtx);
    for i := 0 to |a|
      invariant missing == Missing(a, vtx, i) && !partial.headerIsNull && partial.txn_available == a
    {
      MissingStep(a, vtx, i);
      if a[i].None? {
        missing := missing + [vtx[i]];
      }
    }
    if Honest(a, vtx) {
      MergedIsBlock(a, vtx, |a|);
      assert vtx[..|a|] == vtx;
    }
    status, block := partial.FillBlock(missing, check);
  }

  lemma AcceptableIf(c: CompactBlock)
    requires !c.headerIsNull && 0 < c.BlockTxCount() && |c.prefilledtxn| == 1 && PrefilledOk(c, 0)
    ensures Acceptable(c) <==> c.BlockTxCount() <= MAX_BLOCK_WEIGHT / MIN_SERIALIZABLE_TRANSACTION_WEIGHT
  {}

  lemma MissingNone(a: seq<Ref>, vtx: seq<Tx>)
    requires |a| == |vtx|
    ensures Missing(a, vtx, 0) == []
  {}

  lemma MissingStep(a: seq<Ref>, vtx: seq<Tx>, i: nat)
    requires i < |a| == |vtx|
    ensures Missing(a, vtx, i + 1) == Missing(a, vtx, i) + if a[i].None? then [vtx[i]] else []
  {}

  lemma PlacedStart(c: CompactBlock)
    ensures Placed(c, seq(c.BlockTxCount(), i => None), 0)
  {
    FilledNone(c.BlockTxCount(), c.BlockTxCount());
  }

  lemma NoneFilled(a: seq<Ref>)
    ensures Filled(a, 0) == 0
  {}

  lemma SkipEmpty(a: seq<Ref>, j: nat)
    requires j < |a| && a[j].None?
    ensures Filled(a, j + 1) == Filled(a, j)
  {}

  lemma StoredNone(c: CompactBlock, a: seq<Ref>)
    ensures Stored(c, a, map[], 0)
  {}

  lemma FillingRange(base: seq<Ref>, ids: map<nat, nat>, a: seq<Ref>, have: seq<bool>, count: int)
    requires Filling(base, ids, a, have, count)
    ensures |a| == |have| == |base| && forall s :: s in ids ==> ids[s] < |a|
  {}

  /** A slot without a match yet is empty, where positions are the slots themselves. */
  lemma Untouched(c: CompactBlock, base: seq<Ref>, ids: map<nat, nat>, a: seq<Ref>, have: seq<bool>, count: int, s: nat)
    requires Filling(base, ids, a, have, count) && s in ids && Leads(c, base, ids, |c.shorttxids|) && !have[ids[s]]
    ensures a[ids[s]].None?
  {
    hide Filled, Rank;
    assert LeadsTo(c, base, s, ids[s], |c.shorttxids|);
  }

  lemma HonestStart(c: CompactBlock, vtx: seq<Tx>, useWitness: bool, base: seq<Ref>)
    requires Describes(c, vtx, useWitness) && Placed(c, base, |c.prefilledtxn|)
    ensures Honest(base, vtx)
  {
    hide Rank, Placed;
    PlacedSize(c, base);
    assert SlotsDescribed(c, base, vtx, useWitness);
    forall j | 0 <= j < |base| && base[j].Some?
      ensures base[j].value == vtx[j]
    {
      assert SlotDescribed(c, base, vtx, useWitness, j);
    }
  }

  lemma HonestDrop(a: seq<Ref>, vtx: seq<Tx>, j: nat)
    requires j < |a|
    ensures Honest(a, vtx) ==> Honest(a[j := None], vtx)
  {}

  // ----- messages that 16 bits are too narrow for ------------------------------------------------------------------

  /** The scan ends and every slot is stored as it is exactly if there are at most 65536 transactions. */
  lemma PositionsFitIff(c: CompactBlock, a: seq<Ref>, ids: map<nat, nat>)
    requires AllPrefilledOk(c) && Placed(c, a, |c.prefilledtxn|) && Distinct(c.shorttxids) && (!Hangs(c) ==> Stored(c, a, ids, |c.shorttxids|))
    ensures !Hangs(c) && Leads(c, a, ids, |c.shorttxids|) <==> c.BlockTxCount() <= UINT16_MAX + 1
  {
    hide AllPrefilledOk, AllInPlace, IsPosition, Filled, Rank, Stored;
    if c.BlockTxCount() <= UINT16_MAX + 1 {
      StoredLeads(c, a, ids, |c.shorttxids|);
    } else if !Hangs(c) && Leads(c, a, ids, |c.shorttxids|) {
      var last := |a| - 1;
      HighEmpty(c, a, last);
      RankInside(c, a, last);
      var s := c.shorttxids[Rank(a, last)];
      StoredRange(c, a, ids, |c.shorttxids|, s);
      assert LeadsTo(c, a, s, ids[s], |c.shorttxids|);
      RankStrict(a, ids[s], last);
    }
  }

  lemma {:induction false} FrontPositions(p: seq<Prefilled>, k: nat)
    requires k <= |p| && forall i :: 0 <= i < |p| ==> p[i].index == 0
    ensures Position(p, k) == k - 1
  {
    if k > 0 {
      FrontPositions(p, k - 1);
    }
  }

  /** A message that passes every test and on which the scan does not end. */
  lemma HangExample(tx: Tx)
    ensures var c := CompactBlock(false, h => h, [7], seq(UINT16_MAX + 1, i => Prefilled(0, Some(tx)))); Acceptable(c) && Hangs(c)
  {
    hide Position;
    var c := CompactBlock(false, h => h, [7], seq(UINT16_MAX + 1, i => Prefilled(0, Some(tx))));
    forall k | 0 <= k < |c.prefilledtxn|
      ensures PrefilledOk(c, k)
    {
      FrontPositions(c.prefilledtxn, k + 1);
    }
  }

  lemma FirstReplaced(c: CompactBlock, pool: seq<(nat, Tx)>, a: seq<Ref>, s: nat, i: nat)
    requires Overwritten(c, pool, a) && |c.prefilledtxn| == 1 && c.prefilledtxn[0].index == 0
    requires |c.shorttxids| > UINT16_MAX && c.shorttxids[UINT16_MAX] == s && SoleMatch(c.shortId, pool, |pool|, s, i)
    ensures a != [] && a[0] == Some(pool[i].1)
  {
    hide Position;
    FrontPositions(c.prefilledtxn, 1);
    assert ReplacedAt(c, pool, a, 0);
    assert WrappedId(c, 0) == s;
  }

  /** A message whose prefilled coinbase is replaced by the match for its last id. */
  method OverwriteExample(coinbase: Tx, other: Tx) returns (status: Option<ReadStatus>, first: Ref)
    ensures status == Some(READ_STATUS_OK) && first == Some(other)
  {
    hide Position, Filled, Describes, NoForeign, Honest, UniqueMatchesUsed, ExtraMatchesUsed, InPlaceFrom, AllInPlace, Scans, Stored, Placed;
    var c := CompactBlock(false, h => h, seq(UINT16_MAX + 1, i => i), [Prefilled(0, Some(coinbase))]);
    FrontPositions(c.prefilledtxn, 1);
    assert Acceptable(c) && Distinct(c.shorttxids);
    var pool := [(UINT16_MAX, other)];
    var partial := new PartiallyDownloadedBlock(pool);
    ghost var t;
    status, t := partial.InitData(c, [], i => false, [], false);
    assert SoleMatch(c.shortId, pool, |pool|, c.shorttxids[UINT16_MAX], 0);
    FirstReplaced(c, pool, partial.txn_available, c.shorttxids[UINT16_MAX], 0);
    first := partial.txn_available[0];
  }

  /** A pool match that an extra transaction empties again: the count of extra transactions goes below zero and wraps. */
  method ExtraCountExample(coinbase: Tx, one: Tx, other: Tx) returns (status: Option<ReadStatus>, extraCount: int)
    requires one.witnessHash != other.witnessHash
    ensures status == Some(READ_STATUS_OK) && extraCount == SIZE_RANGE - 1
  {
    hide Position, Describes, NoForeign, Honest, UniqueMatchesUsed, ExtraMatchesUsed, InPlaceFrom, AllInPlace, Overwritten, Filled, Scans, Stored, Placed;
    var c := CompactBlock(false, h => h, [7, 8], [Prefilled(0, Some(coinbase))]);
    FrontPositions(c.prefilledtxn, 1);
    assert Acceptable(c) && Distinct(c.shorttxids);
    var partial := new PartiallyDownloadedBlock([(7, one)]);
    ghost var t;
    status, t := partial.InitData(c, [(7, other)], i => false, [], false);
    extraCount := partial.extra_count;
    OneEmptied(c, t, partial.txn_available, coinbase, one, other);
  }

  lemma OneEmptied(c: CompactBlock, t: Trace, a: seq<Ref>, coinbase: Tx, one: Tx, other: Tx)
    requires (forall h: nat :: c.shortId(h) == h) && c.shorttxids == [7, 8] && c.prefilledtxn == [Prefilled(0, Some(coinbase))]
    requires one.witnessHash != other.witnessHash
    requires Placed(c, t.base, 1) && Stored(c, t.base, t.ids, 2) && Scans(c, [(7, one)], [(7, other)], t, a)
    ensures |t.mid| == |a| == 3 && Filled(a, 3) - Filled(t.mid, 3) == -1
  {
    hide SlotScanned, SlotExtended, Stored, Placed, IdScanned, AllHeld, Filled;
    TwoSlots(c, t.base, t.ids, coinbase);
    var pool, extra := [(7, one)], [(7, other)];
    assert IdScanned(c, pool, extra, t, a, 7) && IdScanned(c, pool, extra, t, a, 8);
    TwoScanned(c, pool, extra, t, a, one, other);
    assert t.mid == [Some(coinbase), Some(one), None] && a == [Some(coinbase), None, None];
    FilledThree(t.mid);
    FilledThree(a);
  }

  lemma FilledThree(a: seq<Ref>)
    requires |a| == 3
    ensures Filled(a, 3) == (if a[0].Some? then 1 else 0) + (if a[1].Some? then 1 else 0) + if a[2].Some? then 1 else 0
  {
    assert Filled(a, 1) == if a[0].Some? then 1 else 0;
    assert Filled(a, 2) == Filled(a, 1) + if a[1].Some? then 1 else 0;
  }

  lemma TwoSlots(c: CompactBlock, base: seq<Ref>, ids: map<nat, nat>, coinbase: Tx)
    requires c.shorttxids == [7, 8] && c.prefilledtxn == [Prefilled(0, Some(coinbase))] && Placed(c, base, 1) && Stored(c, base, ids, 2)
    ensures base == [Some(coinbase), None, None] && ids == map[7 := 1, 8 := 2] && Lone(ids, 7) && Lone(ids, 8)
    ensures 0 !in ids.Values
  {
    hide Stored, Position;
    FrontPositions(c.prefilledtxn, 1);
    FrontPositions(c.prefilledtxn, 0);
    assert InPlace(c, base, 0);
    StoredLeads(c, base, ids, 2);
    assert base == [Some(coinbase), None, None];
    assert Rank(base, 0) == 0 && Rank(base, 1) == 0 && Rank(base, 2) == 1;
    assert c.shorttxids[0] in ids && c.shorttxids[1] in ids;
    forall s | s in ids
      ensures (s == 7 && ids[s] == 1) || (s == 8 && ids[s] == 2)
    {
      assert LeadsTo(c, base, s, ids[s], 2);
    }
    assert ids == map[7 := 1, 8 := 2];
  }

  lemma TwoScanned(c: CompactBlock, pool: seq<(nat, Tx)>, extra: seq<(nat, Tx)>, t: Trace, a: seq<Ref>, one: Tx, other: Tx)
    requires (forall h: nat :: c.shortId(h) == h) && pool == [(7, one)] && extra == [(7, other)] && one.witnessHash != other.witnessHash
    requires t.ids == map[7 := 1, 8 := 2] && |t.base| == |t.mid| == |a| == 3 && t.base[1].None? && t.base[2].None? && t.n <= 1 && t.m <= 1
    requires IdScanned(c, pool, extra, t, a, 7) && IdScanned(c, pool, extra, t, a, 8)
    requires (t.n == 1 || AllHeld(t.ids, t.mid)) && (t.m == 1 || AllHeld(t.ids, a))
    ensures t.mid[1] == Some(one) && t.mid[2] == None && a[1] == None && a[2] == None
  {
    assert !SomeMatch(c.shortId, pool, t.n, 8) && !SomeMatch(c.shortId, extra, t.m, 8);
    assert t.mid[2] == None && a[2] == None;
    assert 8 in t.ids && t.n == 1 && t.m == 1;
    assert SoleMatch(c.shortId, pool, 1, 7, 0);
    assert SomeMatch(c.shortId, pool, 1, 7);
    assert c.shortId(extra[0].0) == 7;
    assert !SameWitness(c.shortId, extra, 1, 7, one.witnessHash);
  }
}
