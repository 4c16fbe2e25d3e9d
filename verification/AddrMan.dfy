/**
 * The stochastic address manager (src/addrman.h, src/addrman.cpp): five redundant indexes and their
 * counters, updated in place by every operation.
 */
module AddrMan {
  import opened AddrTables
  import opened Power

  /** The occupied slots of a bucket array. */
  ghost function TableOf(a: array2<int>): Table
    reads a
  {
    map b: nat, p: nat | b < a.Length0 && p < a.Length1 && a[b, p] != -1 :: Slot(b, p) := a[b, p]
  }

  /** CAddrInfo::IsTerrible */
  predicate IsTerrible(e: Info, now: int) {
    if e.lastTry != 0 && e.lastTry >= now - 60 then false
    else if e.addr.time > now + 10 * 60 then true
    else if e.addr.time == 0 || now - e.addr.time > HORIZON_DAYS * 24 * 60 * 60 then true
    else if e.lastSuccess == 0 && e.attempts >= RETRIES then true
    else now - e.lastSuccess > MIN_FAIL_DAYS * 24 * 60 * 60 && e.attempts >= MAX_FAILURES
  }

  /**
   * An entry is of no use unless it was tried in the last minute: its time lies more than ten minutes ahead, is not
   * set or more than thirty days back, or it failed three times without ever succeeding, or ten times and not
   * succeeded for a week.
   */
  lemma TerribleIff(e: Info, now: int)
    ensures IsTerrible(e, now) <==>
            && !(e.lastTry != 0 && now - e.lastTry <= 60)
            && (|| e.addr.time - now > 600 || e.addr.time == 0 || now - e.addr.time > 2592000
                || (e.attempts >= 3 && (e.lastSuccess == 0 || (e.attempts >= 10 && now - e.lastSuccess > 604800))))
  {}

  /** The entries of `info` other than `gone` are all still there, up to their place in the random order. */
  ghost predicate Survive(info: InfoMap, info': InfoMap, gone: set<int>) {
    && info'.Keys == info.Keys - gone
    && (forall id :: id in info' ==> info'[id] == info[id].(randomPos := info'[id].randomPos))
  }

  /** The same entry up to its place in the indexes. */
  ghost predicate SameEntry(e: Info, e': Info) {
    e' == e.(randomPos := e'.randomPos, refCount := e'.refCount)
  }

  method Wipe(a: array2<int>)
    modifies a
    ensures TableOf(a) == map[]
  {
    for bucket := 0 to a.Length0
      invariant forall b, p :: 0 <= b < bucket && 0 <= p < a.Length1 ==> a[b, p] == -1
    {
      for entry := 0 to a.Length1
        invariant forall b, p :: 0 <= b < bucket && 0 <= p < a.Length1 ==> a[b, p] == -1
        invariant forall p :: 0 <= p < entry ==> a[bucket, p] == -1
      {
        a[bucket, entry] := -1;
      }
    }
  }

  class AddrMan {
    /** Bucket hashes as a function of the secret key. */
    const keyed: nat -> Hashes
    /** CNetAddr::IsRoutable */
    const routable: NetAddr -> bool
    var nKey: nat
    var nIdCount: int
    var mapInfo: InfoMap
    var mapAddr: map<NetAddr, int>
    var vRandom: seq<int>
    var nTried: int
    const vvTried: array2<int>
    var nNew: int
    const vvNew: array2<int>
    var nLastGood: int

    ghost predicate Shape() {
      && vvNew.Length0 == NEW_BUCKET_COUNT && vvNew.Length1 == BUCKET_SIZE
      && vvTried.Length0 == TRIED_BUCKET_COUNT && vvTried.Length1 == BUCKET_SIZE
      && vvNew != vvTried
    }

    ghost function Abs(): State
      reads this, vvNew, vvTried
    {
      State(keyed(nKey), mapInfo, mapAddr, vRandom, nIdCount, TableOf(vvNew), TableOf(vvTried), nNew, nTried)
    }

    /** The invariant inside an operation: `pending` entries are in no table, nNew still lacks `slack`. */
    ghost predicate Consistent(pending: set<int>, slack: int)
      reads this, vvNew, vvTried
    {
      Shape() && Inv(Abs().(nNew := nNew + slack), pending)
    }

    /** What Check_ tests. */
    ghost predicate Valid()
      reads this, vvNew, vvTried
    {
      Shape() && Inv(Abs(), {})
    }

    /** An empty address manager: the constructor, and Clear. */
    constructor (keyed: nat -> Hashes, routable: NetAddr -> bool, nKey: nat)
      ensures Valid() && mapInfo == map[] && nLastGood == 1 && fresh(vvNew) && fresh(vvTried)
      ensures this.keyed == keyed && this.routable == routable && this.nKey == nKey && nIdCount == 0
    {
      this.keyed, this.routable, this.nKey := keyed, routable, nKey;
      nIdCount, nTried, nNew, nLastGood := 0, 0, 0, 1;
      mapInfo, mapAddr, vRandom := map[], map[], [];
      var newT := new int[NEW_BUCKET_COUNT, BUCKET_SIZE]((b, p) => -1);
      var triedT := new int[TRIED_BUCKET_COUNT, BUCKET_SIZE]((b, p) => -1);
      vvNew, vvTried := newT, triedT;
      new;
      assert TableOf(vvNew) == map[] && TableOf(vvTried) == map[];
      EmptyInv(keyed(nKey));
    }

    /** Clear */
    method Clear(nKey: nat)
      requires Shape()
      modifies this, vvNew, vvTried
      ensures Valid() && mapInfo == map[] && mapAddr == map[] && vRandom == [] && this.nKey == nKey && nLastGood == 1
      ensures nIdCount == nTried == nNew == 0 && TableOf(vvNew) == map[] && TableOf(vvTried) == map[]
    {
      hide TableOf, Inv;
      EmptyInv(keyed(nKey));
      vRandom := [];
      this.nKey := nKey;
      Wipe(vvNew);
      Wipe(vvTried);
      nIdCount, nTried, nNew, nLastGood := 0, 0, 0, 1;
      mapInfo, mapAddr := map[], map[];
    }

    // ----- single slots ------------------------------------------------------------------------------

    method NewAt(slot: Slot) returns (id: int)
      requires Shape() && slot.bucket < NEW_BUCKET_COUNT && slot.pos < BUCKET_SIZE
      ensures if slot in TableOf(vvNew) then id == TableOf(vvNew)[slot] != -1 else id == -1
    {
      id := vvNew[slot.bucket, slot.pos];
    }

    method TriedAt(slot: Slot) returns (id: int)
      requires Shape() && slot.bucket < TRIED_BUCKET_COUNT && slot.pos < BUCKET_SIZE
      ensures if slot in TableOf(vvTried) then id == TableOf(vvTried)[slot] != -1 else id == -1
    {
      id := vvTried[slot.bucket, slot.pos];
    }

    method PutNew(slot: Slot, id: int)
      requires Shape() && slot.bucket < NEW_BUCKET_COUNT && slot.pos < BUCKET_SIZE
      modifies vvNew
      ensures Shape() && (id != -1 ==> TableOf(vvNew) == old(TableOf(vvNew))[slot := id])
      ensures TableOf(vvTried) == old(TableOf(vvTried))
    {
      vvNew[slot.bucket, slot.pos] := id;
    }

    method EraseNew(slot: Slot)
      requires Shape() && slot.bucket < NEW_BUCKET_COUNT && slot.pos < BUCKET_SIZE
      modifies vvNew
      ensures TableOf(vvNew) == old(TableOf(vvNew)) - {slot} && Shape()
      ensures TableOf(vvTried) == old(TableOf(vvTried))
    {
      vvNew[slot.bucket, slot.pos] := -1;
    }

    method PutTried(slot: Slot, id: int)
      requires Shape() && slot.bucket < TRIED_BUCKET_COUNT && slot.pos < BUCKET_SIZE
      modifies vvTried
      ensures Shape() && (id != -1 ==> TableOf(vvTried) == old(TableOf(vvTried))[slot := id])
      ensures TableOf(vvNew) == old(TableOf(vvNew))
    {
      vvTried[slot.bucket, slot.pos] := id;
    }

    method EraseTried(slot: Slot)
      requires Shape() && slot.bucket < TRIED_BUCKET_COUNT && slot.pos < BUCKET_SIZE
      modifies vvTried
      ensures TableOf(vvTried) == old(TableOf(vvTried)) - {slot} && Shape()
      ensures TableOf(vvNew) == old(TableOf(vvNew))
    {
      vvTried[slot.bucket, slot.pos] := -1;
    }

    // ----- entries -----------------------------------------------------------------------------------

    /** Create: everything but the nNew counter, which the caller bumps. */
    method Create(a: Address, source: NetAddr) returns (nId: int)
      requires Consistent({}, 0) && a.service.ip !in mapAddr
      modifies this
      ensures nId == old(nIdCount)
      ensures Abs() == Created(old(Abs()), a, source).(nNew := old(nNew)) && Consistent({nId}, 1)
      ensures nLastGood == old(nLastGood) && nKey == old(nKey)
    {
      hide RandomOk, AddrOk, NewOk, TriedOk, RefsOk, CountOk, TableOf;
      CreatedInv(Abs().(nNew := nNew), {}, a, source);
      nId := nIdCount;
      nIdCount := nIdCount + 1;
      mapInfo := mapInfo[nId := NewInfo(a, source, |vRandom|)];
      mapAddr := mapAddr[a.service.ip := nId];
      vRandom := vRandom + [nId];
      assert {} + {nId} == {nId};
    }

    method SwapRandom(p: nat, q: nat, ghost pending: set<int>, ghost slack: int)
      requires RandomOk(mapInfo, vRandom) && p < |vRandom| && q < |vRandom|
      modifies this`mapInfo, this`vRandom
      ensures RandomOk(mapInfo, vRandom) && Survive(old(mapInfo), mapInfo, {})
      ensures old(Consistent(pending, slack)) ==> Consistent(pending, slack)
      ensures |vRandom| == old(|vRandom|) && vRandom[p] == old(vRandom)[q] && vRandom[q] == old(vRandom)[p]
      ensures forall i :: 0 <= i < |vRandom| && i != p && i != q ==> vRandom[i] == old(vRandom)[i]
      ensures vRandom == old(vRandom)[p := old(vRandom)[q]][q := old(vRandom)[p]]
    {
      hide RandomOk, AddrOk, NewOk, TriedOk, RefsOk, CountOk, TableOf, Inv, Survive;
      ghost var s := Abs().(nNew := nNew + slack);
      Swapped(mapInfo, vRandom, p, q);
      if p != q {
        var nId1, nId2 := vRandom[p], vRandom[q];
        mapInfo := mapInfo[nId1 := mapInfo[nId1].(randomPos := q)];
        mapInfo := mapInfo[nId2 := mapInfo[nId2].(randomPos := p)];
        vRandom := vRandom[p := nId2][q := nId1];
        if old(Consistent(pending, slack)) {
          SurviveSimilar(s.info, mapInfo);
          SimilarInv(s, pending, mapInfo, vRandom);
        }
      }
    }

    /** Delete an entry that is in neither table; its asserts hold. */
    method Delete(nId: int, ghost pending: set<int>, ghost slack: int)
      requires RandomOk(mapInfo, vRandom) && nId in mapInfo && !mapInfo[nId].inTried && mapInfo[nId].refCount == 0
      modifies this`mapInfo, this`mapAddr, this`vRandom, this`nNew
      ensures RandomOk(mapInfo, vRandom) && Survive(old(mapInfo), mapInfo, {nId}) && nNew == old(nNew) - 1
      ensures mapAddr == old(mapAddr) - {old(mapInfo)[nId].Ip()}
      ensures old(Consistent(pending, slack)) ==> Consistent(pending - {nId}, slack)
    {
      hide AddrOk, NewOk, TriedOk, RefsOk, CountOk, TableOf, Inv;
      assert vRandom[mapInfo[nId].randomPos] == nId;
      SwapRandom(mapInfo[nId].randomPos, |vRandom| - 1, pending, slack);
      if old(Consistent(pending, slack)) {
        DeletedInv(Abs().(nNew := nNew + slack), pending, nId);
      }
      var info := mapInfo[nId];
      vRandom := vRandom[..|vRandom| - 1];
      mapAddr := mapAddr - {info.Ip()};
      mapInfo := mapInfo - {nId};
      nNew := nNew - 1;
    }

    // ----- the new table -----------------------------------------------------------------------------

    /**
     * ClearNew: empty one slot of the new table, deleting its entry if that was the last reference.
     * Every other entry survives.
     */
    method ClearNew(slot: Slot, ghost pending: set<int>, ghost slack: int) returns (ghost gone: set<int>)
      requires Consistent(pending, slack) && slot.bucket < NEW_BUCKET_COUNT && slot.pos < BUCKET_SIZE
      requires slot in TableOf(vvNew) ==> TableOf(vvNew)[slot] !in pending
      modifies this`mapInfo, this`mapAddr, this`vRandom, this`nNew, vvNew
      ensures Consistent(pending, slack) && TableOf(vvNew) == old(TableOf(vvNew)) - {slot}
      ensures gone == {} || (slot in old(TableOf(vvNew)) && gone == {old(TableOf(vvNew))[slot]})
      ensures TableOf(vvTried) == old(TableOf(vvTried)) && Removed(old(mapInfo), mapInfo, gone)
      ensures forall id :: id in old(mapInfo) && (slot in old(TableOf(vvNew)) ==> id != old(TableOf(vvNew))[slot]) ==>
                             id in mapInfo && mapInfo[id].refCount == old(mapInfo)[id].refCount
    {
      hide RandomOk, AddrOk, NewOk, TriedOk, RefsOk, CountOk, TableOf;
      gone := {};
      var id := NewAt(slot);
      assert slot !in TableOf(vvNew) ==> TableOf(vvNew) - {slot} == TableOf(vvNew);
      if id != -1 {
        ghost var s := Abs().(nNew := nNew + slack);
        UnreferencedInv(s, pending, slot);
        mapInfo := mapInfo[id := mapInfo[id].(refCount := mapInfo[id].refCount - 1)];
        EraseNew(slot);
        assert Consistent(pending + {id}, slack);
        assert pending + {id} - {id} == pending;
        if mapInfo[id].refCount == 0 {
          gone := {id};
          Delete(id, pending + {id}, slack);
        } else {
          Settled(Abs().(nNew := nNew + slack), pending + {id}, id);
        }
      }
    }

    /** Enter an entry into an empty slot of the new table. */
    method Reference(slot: Slot, id: int, ghost pending: set<int>, ghost slack: int)
      requires Consistent(pending, slack) && slot !in TableOf(vvNew) && id in mapInfo && !mapInfo[id].inTried
      requires mapInfo[id].refCount < NEW_BUCKETS_PER_ADDRESS && slot.bucket < NEW_BUCKET_COUNT
      requires slot == keyed(nKey).NewSlotIn(mapInfo[id].addr.service, slot.bucket)
      modifies this`mapInfo, vvNew
      ensures Consistent(pending - {id}, slack) && TableOf(vvTried) == old(TableOf(vvTried))
      ensures mapInfo == old(mapInfo)[id := old(mapInfo)[id].(refCount := old(mapInfo)[id].refCount + 1)]
      ensures TableOf(vvNew) == old(TableOf(vvNew))[slot := id]
    {
      hide RandomOk, AddrOk, NewOk, TriedOk, RefsOk, CountOk, TableOf, Inv;
      ghost var s := Abs().(nNew := nNew + slack);
      ReferencedInv(s, pending, slot, id);
      CountedRefs(s, pending, id);
      mapInfo := mapInfo[id := mapInfo[id].(refCount := mapInfo[id].refCount + 1)];
      PutNew(slot, id);
      assert Abs().(nNew := nNew + slack) == Referenced(s, slot, id);
    }

    // ----- the tried table ----------------------------------------------------------------------------

    /** Remove an entry from all new buckets; the count reaches zero. */
    method Unlist(nId: int)
      requires Valid() && nId in mapInfo
      modifies this`mapInfo, vvNew
      ensures Consistent({nId}, 0) && TableOf(vvTried) == old(TableOf(vvTried))
      ensures mapInfo == old(mapInfo)[nId := old(mapInfo)[nId].(refCount := 0)]
      ensures TableOf(vvNew) == Without(old(TableOf(vvNew)), nId)
    {
      hide RandomOk, AddrOk, NewOk, TriedOk, RefsOk, CountOk, TableOf;
      assert {} + {nId} == {nId};
      Pend(Abs(), {}, nId);
      var service := mapInfo[nId].addr.service;
      for bucket := 0 to NEW_BUCKET_COUNT
        invariant Consistent({nId}, 0) && TableOf(vvTried) == old(TableOf(vvTried))
        invariant nId in mapInfo && mapInfo == old(mapInfo)[nId := old(mapInfo)[nId].(refCount := mapInfo[nId].refCount)]
        invariant forall slot :: slot in TableOf(vvNew) && TableOf(vvNew)[slot] == nId ==> bucket <= slot.bucket
        invariant Without(TableOf(vvNew), nId) == Without(old(TableOf(vvNew)), nId)
      {
        var slot := keyed(nKey).NewSlotIn(service, bucket);
        ghost var before := TableOf(vvNew);
        UnlistOne(nId, slot);
        forall x | x in TableOf(vvNew) && TableOf(vvNew)[x] == nId
          ensures bucket + 1 <= x.bucket
        {
          assert x in before && before[x] == nId;
          assert x != slot;
          OccupantHere(x);
        }
      }
      NoneLeft(nId);
      assert TableOf(vvNew) == Without(TableOf(vvNew), nId);
    }

    lemma OccupantHere(slot: Slot)
      requires exists pending :: Consistent(pending, 0)
      requires slot in TableOf(vvNew)
      ensures TableOf(vvNew)[slot] in mapInfo && slot.bucket < NEW_BUCKET_COUNT
      ensures slot == keyed(nKey).NewSlotIn(mapInfo[TableOf(vvNew)[slot]].addr.service, slot.bucket)
    {
      var pending :| Consistent(pending, 0);
      Occupant(Abs(), pending, slot);
    }

    lemma NoneLeft(nId: int)
      requires Consistent({nId}, 0) && nId in mapInfo
      requires forall slot :: slot in TableOf(vvNew) && TableOf(vvNew)[slot] == nId ==> NEW_BUCKET_COUNT <= slot.bucket
      ensures mapInfo[nId].refCount == 0
      ensures forall slot :: slot in TableOf(vvNew) ==> TableOf(vvNew)[slot] != nId
    {
      forall slot | slot in TableOf(vvNew)
        ensures TableOf(vvNew)[slot] != nId
      {
        Occupant(Abs(), {nId}, slot);
      }
      assert Refs(TableOf(vvNew), nId) == {};
      CountedRefs(Abs(), {nId}, nId);
    }

    /** One step of that loop: if the slot holds the entry, take it away. */
    method UnlistOne(nId: int, slot: Slot)
      requires Consistent({nId}, 0) && nId in mapInfo && slot.bucket < NEW_BUCKET_COUNT && slot.pos < BUCKET_SIZE
      modifies this`mapInfo, vvNew
      ensures Consistent({nId}, 0) && nId in mapInfo && TableOf(vvTried) == old(TableOf(vvTried))
      ensures mapInfo == old(mapInfo)[nId := old(mapInfo)[nId].(refCount := mapInfo[nId].refCount)]
      ensures slot in old(TableOf(vvNew)) && old(TableOf(vvNew))[slot] == nId ==> TableOf(vvNew) == old(TableOf(vvNew)) - {slot}
      ensures !(slot in old(TableOf(vvNew)) && old(TableOf(vvNew))[slot] == nId) ==> TableOf(vvNew) == old(TableOf(vvNew))
    {
      hide RandomOk, AddrOk, NewOk, TriedOk, RefsOk, CountOk, TableOf;
      CountedRefs(Abs(), {nId}, nId);
      var occupant := NewAt(slot);
      if occupant == nId {
        UnreferencedInv(Abs(), {nId}, slot);
        assert {nId} + {nId} == {nId};
        EraseNew(slot);
        mapInfo := mapInfo[nId := mapInfo[nId].(refCount := mapInfo[nId].refCount - 1)];
      } else {
        assert mapInfo == mapInfo[nId := mapInfo[nId].(refCount := mapInfo[nId].refCount)];
      }
    }

    /** Take the entry of a tried slot out of the tried table. */
    method Demote(slot: Slot, ghost pending: set<int>, ghost slack: int) returns (nIdEvict: int)
      requires Consistent(pending, slack)
      requires slot.bucket < TRIED_BUCKET_COUNT && slot.pos < BUCKET_SIZE && slot in TableOf(vvTried)
      modifies this`mapInfo, this`nTried, vvTried
      ensures nIdEvict in old(mapInfo) && old(mapInfo)[nIdEvict].inTried && old(mapInfo)[nIdEvict].refCount == 0
      ensures nIdEvict == old(TableOf(vvTried))[slot]
      ensures Consistent(pending + {nIdEvict}, slack + 1) && TableOf(vvTried) == old(TableOf(vvTried)) - {slot}
      ensures mapInfo == old(mapInfo)[nIdEvict := old(mapInfo)[nIdEvict].(inTried := false)]
    {
      hide RandomOk, AddrOk, NewOk, TriedOk, RefsOk, CountOk, TableOf;
      nIdEvict := TriedAt(slot);
      ghost var s := Abs().(nNew := nNew + slack);
      TriedOccupant(s, pending, slot);
      FromTriedInv(s, pending, nIdEvict);
      mapInfo := mapInfo[nIdEvict := mapInfo[nIdEvict].(inTried := false)];
      EraseTried(slot);
      nTried := nTried - 1;
    }

    /** Enter an entry that is in no table into the new table, at the slot of its own source. */
    method Relist(id: int, ghost other: int, ghost slack: int) returns (ghost gone: set<int>)
      requires Consistent({other} + {id}, slack) && id in mapInfo && other in mapInfo && id != other
      requires !mapInfo[id].inTried && mapInfo[id].refCount == 0 && mapInfo[other].refCount == 0
      modifies this`mapInfo, this`mapAddr, this`vRandom, this`nNew, vvNew
      ensures Consistent({other}, slack - 1) && TableOf(vvTried) == old(TableOf(vvTried))
      ensures Removed(old(mapInfo), mapInfo, gone) && id !in gone
      ensures var e := old(mapInfo)[id]; TableOf(vvNew) == old(TableOf(vvNew))[keyed(nKey).NewSlot(e.addr.service, e.source) := id]
      ensures other in mapInfo && mapInfo[other].refCount == 0
    {
      hide RandomOk, AddrOk, NewOk, TriedOk, RefsOk, CountOk, TableOf, Inv, Removed;
      var info := mapInfo[id];
      var u := keyed(nKey).NewSlot(info.addr.service, info.source);
      if u in TableOf(vvNew) {
        Occupant(Abs().(nNew := nNew + slack), {other} + {id}, u);
      }
      gone := ClearNew(u, {other} + {id}, slack);
      RemovedKeeps(old(mapInfo), mapInfo, gone, id);
      RemovedUpdate(old(mapInfo), mapInfo, gone, id, 1);
      Reference(u, id, {other} + {id}, slack);
      assert {other} + {id} - {id} == {other};
      PutErased(old(TableOf(vvNew)), u, id);
      nNew := nNew + 1;
    }

    /** Put an entry that is in no table into its free tried slot. */
    method Promote(nId: int)
      requires Consistent({nId}, 1) && nId in mapInfo && !mapInfo[nId].inTried && mapInfo[nId].refCount == 0
      requires keyed(nKey).TriedSlot(mapInfo[nId].addr.service) !in TableOf(vvTried)
      modifies this`mapInfo, this`nTried, vvTried
      ensures Valid() && mapInfo == old(mapInfo)[nId := old(mapInfo)[nId].(inTried := true)]
      ensures TableOf(vvTried) == old(TableOf(vvTried))[keyed(nKey).TriedSlot(mapInfo[nId].addr.service) := nId]
    {
      hide RandomOk, AddrOk, NewOk, TriedOk, RefsOk, CountOk, TableOf, Inv;
      ghost var s := Abs().(nNew := nNew + 1);
      ToTriedInv(s, {nId}, nId);
      CountedRefs(s, {nId}, nId);
      var slot := keyed(nKey).TriedSlot(mapInfo[nId].addr.service);
      PutTried(slot, nId);
      nTried := nTried + 1;
      mapInfo := mapInfo[nId := mapInfo[nId].(inTried := true)];
      assert Abs() == ToTried(s, nId) && {nId} - {nId} == {};
    }

    /** Free a tried slot for nId: its entry, if any, goes back to the new table. */
    method MakeRoom(slot: Slot, ghost nId: int) returns (ghost gone: set<int>)
      requires Consistent({nId}, 1) && nId in mapInfo && !mapInfo[nId].inTried && mapInfo[nId].refCount == 0
      requires slot.bucket < TRIED_BUCKET_COUNT && slot.pos < BUCKET_SIZE
      modifies this`mapInfo, this`mapAddr, this`vRandom, this`nNew, this`nTried, vvNew, vvTried
      ensures Consistent({nId}, 1) && TableOf(vvTried) == old(TableOf(vvTried)) - {slot}
      ensures TableOf(vvNew) == old(Relisted(keyed(nKey), mapInfo, TableOf(vvNew), TableOf(vvTried), slot))
      ensures nId in mapInfo && !mapInfo[nId].inTried && mapInfo[nId].refCount == 0
      ensures Moved(old(mapInfo), mapInfo, gone) && StillTried(old(mapInfo), mapInfo)
    {
      hide RandomOk, AddrOk, NewOk, TriedOk, RefsOk, CountOk, TableOf, Inv, Moved, StillTried, Removed;
      gone := {};
      var occupant := TriedAt(slot);
      assert slot !in TableOf(vvTried) ==> TableOf(vvTried) - {slot} == TableOf(vvTried);
      if occupant != -1 {
        var nIdEvict := Demote(slot, {nId}, 1);
        ghost var info1 := mapInfo;
        gone := Relist(nIdEvict, nId, 2);
        MovedByEviction(old(mapInfo), nIdEvict, info1, mapInfo, gone);
      } else {
        MovedNothing(mapInfo);
      }
      StillNew(old(mapInfo), mapInfo, gone, nId);
    }

    /**
     * MakeTried: move an entry from the new table to the tried table. What it displaces goes back to the
     * new table; at most one entry is lost, and never one that was tried. The internal asserts hold.
     */
    method MakeTried(nId: int) returns (ghost gone: set<int>)
      requires Valid() && nId in mapInfo && !mapInfo[nId].inTried
      modifies this`mapInfo, this`mapAddr, this`vRandom, this`nNew, this`nTried, vvNew, vvTried
      ensures Valid() && nId in mapInfo && mapInfo[nId].inTried
      ensures Moved(old(mapInfo), mapInfo, gone)
      ensures var slot := keyed(nKey).TriedSlot(old(mapInfo)[nId].addr.service);
              && TableOf(vvTried) == old(TableOf(vvTried))[slot := nId]
              && TableOf(vvNew) == old(Relisted(keyed(nKey), mapInfo, Without(TableOf(vvNew), nId), TableOf(vvTried), slot))
      ensures forall id :: id in mapInfo && mapInfo[id].inTried ==> id == nId || (id in old(mapInfo) && old(mapInfo)[id].inTried)
    {
      hide RandomOk, AddrOk, NewOk, TriedOk, RefsOk, CountOk, TableOf, Inv, Moved;
      Unlist(nId);
      nNew := nNew - 1;
      assert mapInfo[nId].refCount == 0;
      var slot := keyed(nKey).TriedSlot(mapInfo[nId].addr.service);
      ghost var info0 := mapInfo;
      gone := MakeRoom(slot, nId);
      MovedAddr(info0, mapInfo, gone, nId);
      MovedAround(old(mapInfo), nId, mapInfo, gone);
      Promote(nId);
      PutErased(old(TableOf(vvTried)), slot, nId);
    }

    // ----- the operations ---------------------------------------------------------------------------------

    /** Replace the statistics of an entry. */
    method UpdateEntry(id: int, e: Info, ghost pending: set<int> := {})
      requires Consistent(pending, 0) && id in mapInfo && SameKeys(mapInfo[id], e) && e.randomPos == mapInfo[id].randomPos
      modifies this`mapInfo
      ensures Consistent(pending, 0) && mapInfo == old(mapInfo)[id := e]
    {
      hide Inv, TableOf;
      UpdateStats(Abs().(nNew := nNew), pending, id, e);
      mapInfo := mapInfo[id := e];
    }

    /** Is exactly this service known? */
    predicate Knows(addr: Service)
      reads this
    {
      addr.ip in mapAddr && mapAddr[addr.ip] in mapInfo && mapInfo[mapAddr[addr.ip]].addr.service == addr
    }

    /** The search for a bucket that holds an untried entry succeeds, from any starting point. */
    method FindBucket(nId: int) returns (nUBucket: int)
      requires Valid() && nId in mapInfo && !mapInfo[nId].inTried
      ensures 0 <= nUBucket < NEW_BUCKET_COUNT
      ensures var slot := keyed(nKey).NewSlotIn(mapInfo[nId].addr.service, nUBucket);
              slot in TableOf(vvNew) && TableOf(vvNew)[slot] == nId
    {
      hide RandomOk, AddrOk, NewOk, TriedOk, RefsOk, CountOk, TableOf;
      var nRnd: nat :| nRnd < NEW_BUCKET_COUNT;
      ghost var slot := SomeRef(nId);
      ghost var m := Distance(slot.bucket, nRnd);
      CountedRefs(Abs(), {}, nId);
      nUBucket := -1;
      var n := 0;
      while n < NEW_BUCKET_COUNT
        invariant 0 <= n <= m
      {
        var nB := (n + nRnd) % NEW_BUCKET_COUNT;
        var at := NewAt(keyed(nKey).NewSlotIn(mapInfo[nId].addr.service, nB));
        if at == nId {
          nUBucket := nB;
          return;
        }
        n := n + 1;
      }
    }

    lemma SomeRef(nId: int) returns (slot: Slot)
      requires Valid() && nId in mapInfo && !mapInfo[nId].inTried
      ensures slot in TableOf(vvNew) && TableOf(vvNew)[slot] == nId
      ensures slot.bucket < NEW_BUCKET_COUNT && slot == keyed(nKey).NewSlotIn(mapInfo[nId].addr.service, slot.bucket)
    {
      CountedRefs(Abs(), {}, nId);
      slot :| slot in Refs(TableOf(vvNew), nId);
      Occupant(Abs(), {}, slot);
    }

    /** Good_: a known new entry always ends up tried; no tried entry is ever lost. */
    method Good(addr: Service, nTime: int) returns (ghost gone: set<int>)
      requires Valid()
      modifies this, vvNew, vvTried
      ensures Valid() && nLastGood == nTime && nKey == old(nKey)
      ensures !old(Knows(addr)) ==> mapInfo == old(mapInfo) && Abs() == old(Abs())
      ensures old(Knows(addr)) ==>
                var id := old(mapAddr[addr.ip]);
                id in mapInfo && mapInfo[id].inTried && mapInfo[id].addr == old(mapInfo)[id].addr &&
                mapInfo[id].lastSuccess == mapInfo[id].lastTry == nTime && mapInfo[id].attempts == 0
      ensures old(Knows(addr)) ==> OthersMoved(old(mapInfo), mapInfo, old(mapAddr[addr.ip]), gone)
      ensures old(Knows(addr) && mapInfo[mapAddr[addr.ip]].inTried) ==>
                TableOf(vvNew) == old(TableOf(vvNew)) && TableOf(vvTried) == old(TableOf(vvTried))
      ensures old(Knows(addr) && !mapInfo[mapAddr[addr.ip]].inTried) ==>
                var id, slot := old(mapAddr[addr.ip]), keyed(nKey).TriedSlot(addr);
                && TableOf(vvTried) == old(TableOf(vvTried))[slot := id]
                && TableOf(vvNew) == old(Relisted(keyed(nKey), mapInfo, Without(TableOf(vvNew), id), TableOf(vvTried), slot))
      ensures TriedKept(old(mapInfo), mapInfo)
      ensures nTime > 0 && old(TimesOk(mapInfo)) ==> TimesOk(mapInfo)
    {
      hide RandomOk, AddrOk, NewOk, TriedOk, RefsOk, CountOk, TableOf, Inv, Moved, TriedKept, TimesOk, OthersMoved;
      TriedKeptSame(mapInfo);
      nLastGood, gone := nTime, {};
      if !Knows(addr) {
        return;
      }
      var nId := mapAddr[addr.ip];
      var info := mapInfo[nId];
      UpdateEntry(nId, info.(lastSuccess := nTime, lastTry := nTime, attempts := 0));
      ghost var info1 := mapInfo;
      TimesGood(old(mapInfo), info1, nId, nTime);
      TriedKeptUpdate(old(mapInfo), info1, nId);
      MovedNothing(info1);
      OthersMovedAfter(old(mapInfo), info1, mapInfo, nId, gone);
      if info.inTried {
        return;
      }
      var nUBucket := FindBucket(nId);
      if nUBucket == -1 {
        return;
      }
      gone := MakeTried(nId);
      OthersMovedAfter(old(mapInfo), info1, mapInfo, nId, gone);
      TriedKeptMoved(old(mapInfo), info1, mapInfo, gone);
      TimesMoved(info1, mapInfo, gone, nId, nTime);
      MovedStats(info1, mapInfo, gone, nId);
    }

    /** Attempt_ */
    method Attempt(addr: Service, fCountFailure: bool, nTime: int)
      requires Valid()
      modifies this`mapInfo
      ensures Valid() && TriedKept(old(mapInfo), mapInfo)
      ensures mapInfo == if !Knows(addr) then old(mapInfo) else
                           var id, e := mapAddr[addr.ip], old(mapInfo)[mapAddr[addr.ip]];
                           old(mapInfo)[id := if fCountFailure && e.lastCountAttempt < nLastGood
                             then e.(lastTry := nTime, lastCountAttempt := nTime, attempts := e.attempts + 1)
                             else e.(lastTry := nTime)]
      ensures nTime >= 0 && old(TimesOk(mapInfo)) ==> TimesOk(mapInfo)
    {
      hide Inv, TableOf;
      if !Knows(addr) {
        return;
      }
      var nId := mapAddr[addr.ip];
      var info := mapInfo[nId].(lastTry := nTime);
      if fCountFailure && info.lastCountAttempt < nLastGood {
        info := info.(lastCountAttempt := nTime, attempts := info.attempts + 1);
      }
      UpdateEntry(nId, info);
    }

    /** Connected_ */
    method Connected(addr: Service, nTime: int)
      requires Valid()
      modifies this`mapInfo
      ensures Valid() && TriedKept(old(mapInfo), mapInfo) && (old(TimesOk(mapInfo)) ==> TimesOk(mapInfo))
      ensures mapInfo == if !Knows(addr) then old(mapInfo) else
                           var id, e := mapAddr[addr.ip], old(mapInfo)[mapAddr[addr.ip]];
                           old(mapInfo)[id := e.(addr := e.addr.(time := if nTime - e.addr.time > 20 * 60 then nTime else e.addr.time))]
    {
      hide Inv, TableOf;
      if !Knows(addr) {
        return;
      }
      var nId := mapAddr[addr.ip];
      var info := mapInfo[nId];
      if nTime - info.addr.time > 20 * 60 {
        UpdateEntry(nId, info.(addr := info.addr.(time := nTime)));
      }
    }

    /** SetServices_ */
    method SetServices(addr: Service, nServices: bv64)
      requires Valid()
      modifies this`mapInfo
      ensures Valid() && TriedKept(old(mapInfo), mapInfo) && (old(TimesOk(mapInfo)) ==> TimesOk(mapInfo))
      ensures mapInfo == if !Knows(addr) then old(mapInfo) else
                           var id, e := mapAddr[addr.ip], old(mapInfo)[mapAddr[addr.ip]];
                           old(mapInfo)[id := e.(addr := e.addr.(services := nServices))]
    {
      hide Inv, TableOf;
      if !Knows(addr) {
        return;
      }
      var nId := mapAddr[addr.ip];
      var info := mapInfo[nId];
      UpdateEntry(nId, info.(addr := info.addr.(services := nServices)));
    }

    /** GetAddr_: a random sample of distinct entries of acceptable quality, at most 23 percent or 2500 of them. */
    method GetAddr(now: int, random: nat -> nat) returns (vAddr: seq<Address>, ghost at: seq<nat>, ghost steps: nat)
      requires Valid()
      modifies this`mapInfo, this`vRandom
      ensures Valid() && Survive(old(mapInfo), mapInfo, {})
      ensures steps <= |vRandom| == |old(vRandom)| && vRandom == Shuffled(old(vRandom), random, steps)
      ensures Sample(mapInfo, vRandom, steps, now, vAddr, at) && (steps > 0 && |vAddr| == Quota(|vRandom|) ==> at != [] && at[|at| - 1] == steps - 1)
      ensures Exhaustive(mapInfo, vRandom, steps, now, at) && (steps < |vRandom| ==> |vAddr| == Quota(|vRandom|))
      ensures |vAddr| <= GETADDR_MAX && 100 * |vAddr| <= GETADDR_MAX_PCT * |vRandom|
      ensures Sample(mapInfo, vRandom, |vRandom|, now, vAddr, at)
      ensures |vAddr| < GETADDR_MAX && |vAddr| < GETADDR_MAX_PCT * |vRandom| / 100 ==> Exhaustive(mapInfo, vRandom, |vRandom|, now, at)
    {
      hide RandomOk, AddrOk, NewOk, TriedOk, RefsOk, CountOk, TableOf, Inv, IsTerrible, Sample, Exhaustive, Survive, Shuffled, DrawFrom, Quota;
      QuotaDef(|vRandom|);
      ShuffledStart(vRandom, random);
      var nNodes := GETADDR_MAX_PCT * |vRandom| / 100;
      if nNodes > GETADDR_MAX {
        nNodes := GETADDR_MAX;
      }
      vAddr, at, steps := [], [], 0;
      var n := 0;
      SampleStart(mapInfo, vRandom, now);
      SurviveAll(mapInfo);
      while n < |vRandom|
        invariant Valid() && Survive(old(mapInfo), mapInfo, {}) && 0 <= n <= |vRandom| == old(|vRandom|)
        invariant |vAddr| <= nNodes && Sample(mapInfo, vRandom, n, now, vAddr, at) && Exhaustive(mapInfo, vRandom, n, now, at)
        invariant vRandom == Shuffled(old(vRandom), random, n) && |at| == |vAddr| && steps == n
        invariant n > 0 && |vAddr| == nNodes ==> at != [] && at[|at| - 1] == n - 1
      {
        if |vAddr| >= nNodes {
          break;
        }
        ghost var info0 := mapInfo;
        vAddr, at := Visit(n, now, random, old(vRandom), vAddr, at);
        SurviveBoth(old(mapInfo), info0, mapInfo);
        n := n + 1;
        steps := n;
      }
      SampleWiden(mapInfo, vRandom, n, now, vAddr, at);
    }

    /** One step of that loop: a random entry is swapped to place n and taken if its quality is acceptable. */
    method Visit(n: nat, now: int, random: nat -> nat, ghost start: seq<int>, vAddr: seq<Address>, ghost at: seq<nat>)
      returns (vAddr': seq<Address>, ghost at': seq<nat>)
      requires Valid() && n < |vRandom| == |start| && vRandom == Shuffled(start, random, n)
      requires Sample(mapInfo, vRandom, n, now, vAddr, at) && Exhaustive(mapInfo, vRandom, n, now, at)
      modifies this`mapInfo, this`vRandom
      ensures Valid() && Survive(old(mapInfo), mapInfo, {}) && |vRandom| == |start| && vRandom == Shuffled(start, random, n + 1)
      ensures Sample(mapInfo, vRandom, n + 1, now, vAddr', at') && Exhaustive(mapInfo, vRandom, n + 1, now, at')
      ensures (vAddr' == vAddr && at' == at) || (|vAddr'| == |vAddr| + 1 && at' == at + [n])
    {
      hide RandomOk, AddrOk, NewOk, TriedOk, RefsOk, CountOk, TableOf, Inv, IsTerrible, Sample, Exhaustive, Survive, Shuffled, DrawFrom;
      vAddr', at' := vAddr, at;
      var nRndPos := DrawFrom(random, n, |vRandom|);
      ghost var rnd0 := vRandom;
      RandomIndex(Abs(), {});
      ShuffledNext(start, random, n);
      SwapRandom(n, nRndPos, {}, 0);
      SampleSwap(old(mapInfo), rnd0, mapInfo, vRandom, n, now, vAddr, at);
      InRandom(Abs(), n);
      var ai := mapInfo[vRandom[n]];
      SampleNext(mapInfo, vRandom, n, now, vAddr, at);
      if !IsTerrible(ai, now) {
        vAddr', at' := vAddr + [ai.addr], at + [n];
      }
    }

    /** Would a slot of the new table yield to an entry with so many references? */
    ghost predicate Yields(slot: Slot, refCount: int, now: int)
      reads this, vvNew
    {
      SlotYields(mapInfo, TableOf(vvNew), slot, refCount, now)
    }

    /** Does the entry get the slot: it is not its own already, and free or yielding? */
    ghost predicate Taken(slot: Slot, nId: int, now: int)
      requires nId in mapInfo
      reads this, vvNew
    {
      SlotTaken(mapInfo, TableOf(vvNew), slot, nId, now)
    }

    /** Clear a slot of the new table and give it to an entry. */
    method TakeSlot(nId: int, slot: Slot, ghost pending: set<int>) returns (ghost gone: set<int>)
      requires Consistent(pending, 0) && nId in mapInfo && !mapInfo[nId].inTried && pending <= {nId}
      requires mapInfo[nId].refCount < NEW_BUCKETS_PER_ADDRESS && slot.bucket < NEW_BUCKET_COUNT
      requires slot == keyed(nKey).NewSlotIn(mapInfo[nId].addr.service, slot.bucket)
      requires slot in TableOf(vvNew) ==> TableOf(vvNew)[slot] != nId
      modifies this`mapInfo, this`mapAddr, this`vRandom, this`nNew, vvNew
      ensures Valid() && Removed(old(mapInfo), mapInfo, gone) && TableOf(vvNew) == old(TableOf(vvNew))[slot := nId]
      ensures nId in mapInfo && SameEntry(old(mapInfo)[nId], mapInfo[nId]) && mapInfo[nId].refCount == old(mapInfo)[nId].refCount + 1
    {
      hide RandomOk, AddrOk, NewOk, TriedOk, RefsOk, CountOk, TableOf, Inv, Removed;
      gone := ClearNew(slot, pending, 0);
      RemovedKeeps(old(mapInfo), mapInfo, gone, nId);
      RemovedUpdate(old(mapInfo), mapInfo, gone, nId, mapInfo[nId].refCount + 1);
      Reference(slot, nId, pending, 0);
      PutErased(old(TableOf(vvNew)), slot, nId);
      assert pending - {nId} == {};
    }

    /**
     * The second half of Add_: give the entry the new-table slot that its source selects, if that slot
     * is free or yields; an entry left without any reference is deleted again.
     */
    method ListNew(nId: int, source: NetAddr, now: int, ghost pending: set<int>) returns (ghost gone: set<int>)
      requires Consistent(pending, 0) && nId in mapInfo && !mapInfo[nId].inTried
      requires mapInfo[nId].refCount < NEW_BUCKETS_PER_ADDRESS
      requires pending == if mapInfo[nId].refCount == 0 then {nId} else {}
      modifies this`mapInfo, this`mapAddr, this`vRandom, this`nNew, vvNew
      ensures Valid() && Removed(old(mapInfo), mapInfo, gone)
      ensures var slot := keyed(nKey).NewSlot(old(mapInfo)[nId].addr.service, source);
              TableOf(vvNew) == if old(Taken(slot, nId, now)) then old(TableOf(vvNew))[slot := nId] else old(TableOf(vvNew))
      ensures nId in mapInfo <==> old(mapInfo[nId].refCount > 0 ||
                                      Yields(keyed(nKey).NewSlot(mapInfo[nId].addr.service, source), 0, now))
      ensures nId in mapInfo ==>
                && SameEntry(old(mapInfo)[nId], mapInfo[nId])
                && mapInfo[nId].refCount == old(mapInfo)[nId].refCount +
                                            if old(Taken(keyed(nKey).NewSlot(mapInfo[nId].addr.service, source), nId, now)) then 1 else 0
    {
      hide RandomOk, AddrOk, NewOk, TriedOk, RefsOk, CountOk, TableOf, Inv, IsTerrible, Removed;
      RemovedNothing(mapInfo);
      gone := {};
      var info := mapInfo[nId];
      var slot := keyed(nKey).NewSlot(info.addr.service, source);
      var occupant := NewAt(slot);
      ghost var s := Abs();
      CountedRefs(s, pending, nId);
      if occupant != -1 {
        Occupant(s, pending, slot);
      }
      if occupant == nId {
        assert pending == {};
        return;
      }
      var fInsert := occupant == -1;
      if !fInsert && (IsTerrible(mapInfo[occupant], now) || (mapInfo[occupant].refCount > 1 && info.refCount == 0)) {
        fInsert := true;
      }
      if fInsert {
        gone := TakeSlot(nId, slot, pending);
      } else if info.refCount == 0 {
        gone := {nId};
        RandomIndex(Abs().(nNew := nNew), pending);
        Delete(nId, pending, 0);
        assert pending - {nId} == {};
        RemovedOne(old(mapInfo), mapInfo, nId);
      }
    }

    /** The first half of Add_ for an address that is known: refresh it, and decide whether to go on. */
    method Renew(nId: int, a: Address, nTimePenalty: int, now: int, random: nat -> nat) returns (proceed: bool)
      requires Valid() && nId in mapInfo
      modifies this`mapInfo
      ensures Valid() && mapInfo == old(mapInfo)[nId := Renewed(old(mapInfo)[nId], a, nTimePenalty, now)]
      ensures proceed <==> Persuades(mapInfo[nId], a, random)
      ensures proceed ==> !mapInfo[nId].inTried && 1 <= mapInfo[nId].refCount < NEW_BUCKETS_PER_ADDRESS
    {
      hide RandomOk, AddrOk, NewOk, TriedOk, RefsOk, CountOk, TableOf;
      var info := mapInfo[nId];
      CountedRefs(Abs(), {}, nId);
      hide Inv;
      info := Renewed(info, a, nTimePenalty, now);
      UpdateEntry(nId, info);
      if a.time == 0 || (info.addr.time != 0 && a.time <= info.addr.time) {
        return false;
      }
      assert 0 <= info.refCount <= NEW_BUCKETS_PER_ADDRESS;
      if info.inTried || info.refCount == NEW_BUCKETS_PER_ADDRESS {
        return false;
      }
      proceed := Lucky(info.refCount, random);
    }

    /** Add_ for a known address: refresh it, and perhaps give it one more reference. */
    method AddKnown(nId: int, a: Address, source: NetAddr, nTimePenalty: int, now: int, random: nat -> nat) returns (ghost gone: set<int>)
      requires Valid() && nId in mapInfo
      modifies this, vvNew
      ensures Valid() && nKey == old(nKey) && nLastGood == old(nLastGood)
      ensures nId in mapInfo && SameEntry(Renewed(old(mapInfo)[nId], a, nTimePenalty, now), mapInfo[nId])
      ensures OthersKept(old(mapInfo), mapInfo, nId, gone)
      ensures var slot := keyed(nKey).NewSlot(old(mapInfo)[nId].addr.service, source);
              TableOf(vvNew) == if Persuades(Renewed(old(mapInfo)[nId], a, nTimePenalty, now), a, random) && old(Taken(slot, nId, now))
                                then old(TableOf(vvNew))[slot := nId] else old(TableOf(vvNew))
      ensures TriedKept(old(mapInfo), mapInfo) && (old(TimesOk(mapInfo)) ==> TimesOk(mapInfo))
    {
      hide RandomOk, AddrOk, NewOk, TriedOk, RefsOk, CountOk, TableOf, Inv, Removed, TriedKept, TimesOk, IsTerrible, Renewed, OthersKept, Persuades, SlotTaken, SlotYields;
      var proceed := Renew(nId, a, nTimePenalty, now, random);
      TakenAfterRenewal(old(mapInfo), mapInfo, TableOf(vvNew), keyed(nKey).NewSlot(mapInfo[nId].addr.service, source), nId, now);
      gone := {};
      ghost var info1 := mapInfo;
      TriedKeptUpdate(old(mapInfo), info1, nId);
      TimesRenewed(old(mapInfo), info1, nId);
      RemovedNothing(info1);
      OthersKeptAfter(old(mapInfo), info1, mapInfo, nId, gone);
      if proceed {
        gone := ListNew(nId, source, now, {});
        OthersKeptAfter(old(mapInfo), info1, mapInfo, nId, gone);
        TriedKeptRemoved(old(mapInfo), info1, mapInfo, gone);
        TimesRemoved(info1, mapInfo, gone);
      }
    }

    /** Add_ for an unknown address: create an entry, and keep it if its slot is free or yields. */
    method AddUnknown(a: Address, source: NetAddr, nTimePenalty: int, now: int) returns (ghost gone: set<int>)
      requires Valid() && a.service.ip !in mapAddr
      modifies this, vvNew
      ensures Valid() && nKey == old(nKey) && nLastGood == old(nLastGood)
      ensures a.service.ip in mapAddr <==> old(Yields(keyed(nKey).NewSlot(a.service, source), 0, now))
      ensures a.service.ip in mapAddr ==>
                var id := mapAddr[a.service.ip];
                && id == old(nIdCount) && id in mapInfo && mapInfo[id].refCount == 1
                && SameEntry(NewInfo(Penalised(a, nTimePenalty), source, 0), mapInfo[id])
      ensures OthersKept(old(mapInfo), mapInfo, old(nIdCount), gone)
      ensures var slot := keyed(nKey).NewSlot(a.service, source);
              TableOf(vvNew) == if a.service.ip in mapAddr then old(TableOf(vvNew))[slot := old(nIdCount)] else old(TableOf(vvNew))
      ensures TriedKept(old(mapInfo), mapInfo) && (old(TimesOk(mapInfo)) ==> TimesOk(mapInfo))
    {
      hide RandomOk, AddrOk, NewOk, TriedOk, RefsOk, CountOk, TableOf, Removed, TriedKept, TimesOk, IsTerrible, OthersKept;
      ghost var slot := keyed(nKey).NewSlot(a.service, source);
      if slot in TableOf(vvNew) {
        Occupant(Abs(), {}, slot);
      }
      var nId := AddNew(a, source, nTimePenalty);
      assert Yields(slot, 0, now) == old(Yields(slot, 0, now));
      ghost var info1, addr1 := mapInfo, mapAddr;
      NewcomerKept(old(mapInfo), info1, nId);
      gone := ListNew(nId, source, now, {nId});
      OthersKeptAfter(old(mapInfo), info1, mapInfo, nId, gone);
      TriedKeptRemoved(old(mapInfo), info1, mapInfo, gone);
      TimesRemoved(info1, mapInfo, gone);
      KnownIff(info1, addr1, mapInfo, mapAddr, gone, nId);
      if nId in mapInfo {
        CountedRefs(Abs(), {}, nId);
      }
    }

    /**
     * Add_: true exactly for a routable address that was unknown, even when its slot does not yield and
     * the entry is dropped again. At most one entry is lost, and never a tried one; all others stay as they are.
     */
    method Add(a: Address, source: NetAddr, penalty: int, now: int, random: nat -> nat) returns (fNew: bool, ghost gone: set<int>)
      requires Valid()
      modifies this, vvNew
      ensures Valid() && nKey == old(nKey) && nLastGood == old(nLastGood)
      ensures fNew <==> routable(a.service.ip) && a.service.ip !in old(mapAddr)
      ensures !routable(a.service.ip) ==> Abs() == old(Abs())
      ensures fNew ==> (a.service.ip in mapAddr <==> old(Yields(keyed(nKey).NewSlot(a.service, source), 0, now)))
      ensures fNew && a.service.ip in mapAddr ==>
                var id := mapAddr[a.service.ip];
                && id == old(nIdCount) && id in mapInfo && mapInfo[id].refCount == 1
                && SameEntry(NewInfo(Penalised(a, if a.service.ip == source then 0 else penalty), source, 0), mapInfo[id])
      ensures routable(a.service.ip) && !fNew ==>
                var id := old(mapAddr)[a.service.ip];
                && id in old(mapInfo) && id in mapInfo
                && SameEntry(Renewed(old(mapInfo)[id], a, if a.service.ip == source then 0 else penalty, now), mapInfo[id])
      ensures fNew ==>
                var slot := keyed(nKey).NewSlot(a.service, source);
                TableOf(vvNew) == if a.service.ip in mapAddr then old(TableOf(vvNew))[slot := old(nIdCount)] else old(TableOf(vvNew))
      ensures routable(a.service.ip) && !fNew ==>
                var id := old(mapAddr)[a.service.ip];
                var slot := keyed(nKey).NewSlot(old(mapInfo)[id].addr.service, source);
                TableOf(vvNew) == if Persuades(Renewed(old(mapInfo)[id], a, if a.service.ip == source then 0 else penalty, now), a, random) && old(Taken(slot, id, now))
                                  then old(TableOf(vvNew))[slot := id] else old(TableOf(vvNew))
      ensures routable(a.service.ip) ==> OthersKept(old(mapInfo), mapInfo, if fNew then old(nIdCount) else old(mapAddr)[a.service.ip], gone)
      ensures TriedKept(old(mapInfo), mapInfo)
      ensures old(TimesOk(mapInfo)) ==> TimesOk(mapInfo)
    {
      hide RandomOk, AddrOk, NewOk, TriedOk, RefsOk, CountOk, TableOf, TriedKept, TimesOk, Renewed, OthersKept, Persuades, IsTerrible;
      TriedKeptSame(mapInfo);
      gone := {};
      AddrKnown(mapInfo, mapAddr, a.service.ip);
      if !routable(a.service.ip) {
        return false, gone;
      }
      var nTimePenalty := if a.service.ip == source then 0 else penalty;
      if a.service.ip in mapAddr {
        gone := AddKnown(mapAddr[a.service.ip], a, source, nTimePenalty, now, random);
        return false, gone;
      }
      gone := AddUnknown(a, source, nTimePenalty, now);
      return true, gone;
    }

    /** Create an entry, count it, and set its penalised time. */
    method AddNew(a: Address, source: NetAddr, nTimePenalty: int) returns (nId: int)
      requires Valid() && a.service.ip !in mapAddr
      modifies this
      ensures Consistent({nId}, 0) && nKey == old(nKey) && nLastGood == old(nLastGood)
      ensures nId == old(nIdCount) && nId !in old(mapInfo)
      ensures mapInfo == old(mapInfo)[nId := NewInfo(Penalised(a, nTimePenalty), source, old(|vRandom|))]
      ensures TableOf(vvNew) == old(TableOf(vvNew))
    {
      hide RandomOk, AddrOk, NewOk, TriedOk, RefsOk, CountOk, TableOf;
      nId := Create(a, source);
      nNew := nNew + 1;
      var info := mapInfo[nId];
      var time := if info.addr.time - nTimePenalty > 0 then info.addr.time - nTimePenalty else 0;
      UpdateEntry(nId, info.(addr := info.addr.(time := time)), {nId});
    }

    /** Every sequence of operations keeps everything that Check_ tests; the key, which must not be null, stays the same. */
    method Run(ops: seq<Op>)
      requires Valid() && TimesOk(mapInfo)
      requires forall i :: 0 <= i < |ops| ==> ops[i].now > 0
      modifies this, vvNew, vvTried
      ensures Valid() && TimesOk(mapInfo) && nKey == old(nKey) && nLastGood == LastGood(old(nLastGood), ops)
    {
      hide Inv, TimesOk;
      for i := 0 to |ops|
        invariant Valid() && TimesOk(mapInfo) && nKey == old(nKey) && nLastGood == LastGood(old(nLastGood), ops[..i])
      {
        assert ops[..i + 1][..i] == ops[..i];
        Perform(ops[i]);
      }
      assert ops[..|ops|] == ops;
    }

    method Perform(op: Op)
      requires Valid() && TimesOk(mapInfo) && op.now > 0
      modifies this, vvNew, vvTried
      ensures Valid() && TimesOk(mapInfo) && nKey == old(nKey) && nLastGood == if op.OpGood? then op.now else old(nLastGood)
    {
      hide Inv, TimesOk, TableOf, Sample, Exhaustive, Persuades, Renewed, Shuffled;
      ghost var gone;
      match op
      case OpAdd(a, source, penalty, random, now) =>
        var fNew;
        fNew, gone := Add(a, source, penalty, now, random);
      case OpGood(addr, now) => gone := Good(addr, now);
      case OpAttempt(addr, countFailure, now) => Attempt(addr, countFailure, now);
      case OpConnected(addr, now) => Connected(addr, now);
      case OpSetServices(addr, services, now) => SetServices(addr, services);
      case OpGetAddr(random, now) =>
        ghost var info0 := mapInfo;
        ghost var at, steps;
        var vAddr;
        vAddr, at, steps := GetAddr(now, random);
        TimesSurvive(info0, mapInfo);
    }
  }

  /** Swapping two places of the random order. */
  lemma Swapped(info: InfoMap, rnd: seq<int>, p: nat, q: nat)
    requires RandomOk(info, rnd) && p < |rnd| && q < |rnd|
    ensures Survive(info, info, {}) && rnd[p] in info && rnd[q] in info && (p != q ==> rnd[p] != rnd[q])
    ensures p != q ==>
              var info1 := info[rnd[p] := info[rnd[p]].(randomPos := q)];
              var info' := info1[rnd[q] := info1[rnd[q]].(randomPos := p)];
              RandomOk(info', rnd[p := rnd[q]][q := rnd[p]]) && Survive(info, info', {})
  {}

  lemma SurviveAll(info: InfoMap)
    ensures Survive(info, info, {})
  {}

  lemma SurviveSimilar(info: InfoMap, info': InfoMap)
    requires Survive(info, info', {})
    ensures Similar(info, info')
  {}

  lemma SurviveBoth(info: InfoMap, info1: InfoMap, info2: InfoMap)
    requires Survive(info, info1, {}) && Survive(info1, info2, {})
    ensures Survive(info, info2, {})
  {}

  /** The address with its time set back by the penalty. */
  function Penalised(a: Address, penalty: int): (r: Address)
    ensures r.service == a.service && r.services == a.services
  {
    a.(time := if a.time - penalty > 0 then a.time - penalty else 0)
  }

  lemma RemovedNothing(info: InfoMap)
    ensures Removed(info, info, {})
  {}

  lemma RemovedOne(info: InfoMap, info': InfoMap, id: int)
    requires Survive(info, info', {id}) && id in info && !info[id].inTried
    ensures Removed(info, info', {id})
  {}

  lemma RemovedKeeps(info: InfoMap, info': InfoMap, gone: set<int>, id: int)
    requires Removed(info, info', gone) && id in info && id !in gone
    ensures id in info' && SameEntry(info[id], info'[id])
  {}

  lemma RemovedUpdate(info: InfoMap, info': InfoMap, gone: set<int>, id: int, n: int)
    requires Removed(info, info', gone) && id in info'
    ensures Removed(info, info'[id := info'[id].(refCount := n)], gone)
  {}

  /** At most one entry is gone, never a tried one; the others are the same up to their place in the indexes. */
  ghost predicate Removed(info: InfoMap, info': InfoMap, gone: set<int>) {
    && |gone| <= 1 && info'.Keys == info.Keys - gone
    && (forall id :: id in gone && id in info ==> !info[id].inTried)
    && (forall id :: id in info' ==> id in info && SameEntry(info[id], info'[id]))
  }

  /** The same entry up to its place in the tables and the random order. */
  ghost predicate SameStats(e: Info, e': Info) {
    e' == e.(randomPos := e'.randomPos, refCount := e'.refCount, inTried := e'.inTried)
  }

  /** As Removed, with entries allowed to change tables. */
  ghost predicate Moved(info: InfoMap, info': InfoMap, gone: set<int>) {
    && |gone| <= 1 && info'.Keys == info.Keys - gone
    && (forall id :: id in gone && id in info ==> !info[id].inTried)
    && (forall id :: id in info' ==> id in info && SameStats(info[id], info'[id]))
  }

  /** Nothing became tried. */
  ghost predicate StillTried(info: InfoMap, info': InfoMap) {
    forall id :: id in info' && info'[id].inTried ==> id in info && info[id].inTried
  }

  lemma MovedNothing(info: InfoMap)
    ensures Moved(info, info, {}) && StillTried(info, info)
  {}

  lemma MovedByEviction(info: InfoMap, nIdEvict: int, info1: InfoMap, info2: InfoMap, gone: set<int>)
    requires nIdEvict in info && nIdEvict !in gone
    requires info1 == info[nIdEvict := info[nIdEvict].(inTried := false)] && Removed(info1, info2, gone)
    ensures Moved(info, info2, gone) && StillTried(info, info2)
  {}

  lemma StillNew(info: InfoMap, info': InfoMap, gone: set<int>, id: int)
    requires Moved(info, info', gone) && StillTried(info, info') && id in info && !info[id].inTried
    ensures id in info' ==> !info'[id].inTried
  {}

  lemma MovedAddr(info: InfoMap, info': InfoMap, gone: set<int>, id: int)
    requires Moved(info, info', gone) && id in info'
    ensures id in info && info'[id].addr == info[id].addr
  {}

  /** Unlisting before and promoting after the move of others. */
  lemma MovedAround(info: InfoMap, nId: int, info': InfoMap, gone: set<int>)
    requires nId in info && Moved(info[nId := info[nId].(refCount := 0)], info', gone) && nId in info'
    ensures Moved(info, info'[nId := info'[nId].(inTried := true)], gone)
  {}

  /** At most one entry is gone, never a tried one; apart from entry id the others are the same up to their place in the indexes. */
  ghost predicate OthersKept(info: InfoMap, info': InfoMap, id: int, gone: set<int>) {
    && |gone| <= 1 && info.Keys - gone <= info'.Keys <= info.Keys + {id} - gone
    && (forall k :: k in gone && k in info ==> !info[k].inTried)
    && (forall k :: k in info' && k != id ==> k in info && SameEntry(info[k], info'[k]))
  }

  /** The same with entries allowed to leave the tried table; none but id enters it. */
  ghost predicate OthersMoved(info: InfoMap, info': InfoMap, id: int, gone: set<int>) {
    && |gone| <= 1 && info'.Keys == info.Keys - gone && id in info'
    && (forall k :: k in gone && k in info ==> !info[k].inTried)
    && (forall k :: k in info' && k != id ==> k in info && SameStats(info[k], info'[k]) && (info'[k].inTried ==> info[k].inTried))
  }

  lemma OthersKeptAfter(info: InfoMap, info1: InfoMap, info2: InfoMap, id: int, gone: set<int>)
    requires id in info1 && info1 == info[id := info1[id]] && Removed(info1, info2, gone)
    requires id in info ==> info1[id].inTried == info[id].inTried
    ensures OthersKept(info, info2, id, gone)
  {}

  lemma OthersMovedAfter(info: InfoMap, info1: InfoMap, info2: InfoMap, id: int, gone: set<int>)
    requires id in info && id in info1 && info1 == info[id := info1[id]] && Moved(info1, info2, gone) && id in info2
    requires info1[id].inTried == info[id].inTried
    requires forall k :: k in info2 && info2[k].inTried ==> k == id || (k in info1 && info1[k].inTried)
    ensures OthersMoved(info, info2, id, gone)
  {}

  // ----- facts about whole operations -------------------------------------------------------------------------

  /** No tried entry is lost, and none changes its address. */
  ghost predicate TriedKept(info: InfoMap, info': InfoMap) {
    forall id :: id in info && info[id].inTried ==> id in info' && info'[id].addr.service == info[id].addr.service
  }

  lemma TriedKeptSame(info: InfoMap)
    ensures TriedKept(info, info)
  {}

  lemma TriedKeptUpdate(info: InfoMap, info': InfoMap, id: int)
    requires id in info && id in info' && info' == info[id := info'[id]] && info'[id].addr.service == info[id].addr.service
    ensures TriedKept(info, info')
  {}

  lemma TriedKeptMoved(info: InfoMap, info1: InfoMap, info2: InfoMap, gone: set<int>)
    requires TriedKept(info, info1) && Moved(info1, info2, gone)
    requires forall id :: id in info && id in info1 ==> info[id].inTried == info1[id].inTried
    ensures TriedKept(info, info2)
  {}

  lemma MovedStats(info: InfoMap, info': InfoMap, gone: set<int>, id: int)
    requires Moved(info, info', gone) && id in info'
    ensures id in info && SameStats(info[id], info'[id])
  {}

  lemma TimesGood(info: InfoMap, info': InfoMap, id: int, nTime: int)
    requires id in info && info' == info[id := info[id].(lastSuccess := nTime, lastTry := nTime, attempts := 0)]
    ensures nTime > 0 && TimesOk(info) ==> TimesOk(info')
  {}

  lemma TimesMoved(info: InfoMap, info': InfoMap, gone: set<int>, nId: int, nTime: int)
    requires Moved(info, info', gone) && nId in info && info[nId].lastSuccess == nTime
    requires forall id :: id in info' && info'[id].inTried ==> id == nId || (id in info && info[id].inTried)
    ensures nTime > 0 && TimesOk(info) ==> TimesOk(info')
  {}

  /** How many buckets past the start of a wrapped-around search a bucket lies. */
  ghost function Distance(bucket: nat, nRnd: nat): (m: nat)
    requires bucket < NEW_BUCKET_COUNT && nRnd < NEW_BUCKET_COUNT
    ensures m < NEW_BUCKET_COUNT && (m + nRnd) % NEW_BUCKET_COUNT == bucket
  {
    if bucket >= nRnd then bucket - nRnd else bucket + NEW_BUCKET_COUNT - nRnd
  }

  /** vAddr lists entries of acceptable quality from increasing, hence different, places among the first n. */
  ghost predicate Sample(info: InfoMap, rnd: seq<int>, n: nat, now: int, vAddr: seq<Address>, at: seq<nat>) {
    && |vAddr| == |at| && n <= |rnd|
    && (forall i :: 0 <= i < |at| ==> at[i] < n && rnd[at[i]] in info && vAddr[i] == info[rnd[at[i]]].addr
                                      && !IsTerrible(info[rnd[at[i]]], now))
    && (forall i, j :: 0 <= i < j < |at| ==> at[i] < at[j])
  }

  /** No entry of acceptable quality among the first n was passed over. */
  ghost predicate Exhaustive(info: InfoMap, rnd: seq<int>, n: nat, now: int, at: seq<nat>) {
    n <= |rnd| && forall p: nat :: p < n && rnd[p] in info && !IsTerrible(info[rnd[p]], now) ==> p in at
  }

  lemma SampleStart(info: InfoMap, rnd: seq<int>, now: int)
    ensures Sample(info, rnd, 0, now, [], []) && Exhaustive(info, rnd, 0, now, [])
  {}

  lemma SampleSwap(info: InfoMap, rnd: seq<int>, info': InfoMap, rnd': seq<int>, n: nat, now: int, vAddr: seq<Address>, at: seq<nat>)
    requires Sample(info, rnd, n, now, vAddr, at) && Survive(info, info', {}) && |rnd'| == |rnd|
    requires forall i :: 0 <= i < n ==> rnd'[i] == rnd[i]
    ensures Sample(info', rnd', n, now, vAddr, at)
    ensures Exhaustive(info, rnd, n, now, at) ==> Exhaustive(info', rnd', n, now, at)
  {}

  lemma SampleNext(info: InfoMap, rnd: seq<int>, n: nat, now: int, vAddr: seq<Address>, at: seq<nat>)
    requires Sample(info, rnd, n, now, vAddr, at) && n < |rnd| && rnd[n] in info
    ensures Sample(info, rnd, n + 1, now, vAddr, at)
    ensures !IsTerrible(info[rnd[n]], now) ==> Sample(info, rnd, n + 1, now, vAddr + [info[rnd[n]].addr], at + [n])
    ensures Exhaustive(info, rnd, n, now, at) ==> Exhaustive(info, rnd, n + 1, now, if IsTerrible(info[rnd[n]], now) then at else at + [n])
  {
    assert forall p :: p in at ==> p in at + [n];
  }

  lemma SampleWiden(info: InfoMap, rnd: seq<int>, n: nat, now: int, vAddr: seq<Address>, at: seq<nat>)
    requires Sample(info, rnd, n, now, vAddr, at)
    ensures Sample(info, rnd, |rnd|, now, vAddr, at)
  {}

  lemma RandomIndex(s: State, pending: set<int>)
    requires Inv(s, pending)
    ensures RandomOk(s.info, s.rnd)
  {}

  lemma InRandom(s: State, i: nat)
    requires Inv(s, {}) && i < |s.rnd|
    ensures s.rnd[i] in s.info
  {}

  /** Different places in the random order hold different entries. */
  lemma RandomDistinct(s: State, i: nat, j: nat)
    requires Inv(s, {}) && i < j < |s.rnd|
    ensures s.rnd[i] != s.rnd[j]
  {}

  lemma TimesRenewed(info: InfoMap, info': InfoMap, id: int)
    requires id in info && id in info' && info' == info[id := info'[id]]
    requires info'[id] == info[id].(addr := info'[id].addr)
    ensures TimesOk(info) ==> TimesOk(info')
  {}

  lemma TimesRemoved(info: InfoMap, info': InfoMap, gone: set<int>)
    requires Removed(info, info', gone)
    ensures TimesOk(info) ==> TimesOk(info')
  {}

  lemma TriedKeptRemoved(info: InfoMap, info1: InfoMap, info2: InfoMap, gone: set<int>)
    requires TriedKept(info, info1) && Removed(info1, info2, gone)
    requires forall id :: id in info && id in info1 ==> info[id].inTried == info1[id].inTried
    ensures TriedKept(info, info2)
  {}

  lemma NewcomerKept(info: InfoMap, info': InfoMap, id: int)
    requires id !in info && id in info' && info' == info[id := info'[id]]
    requires !info'[id].inTried && info'[id].lastTry == 0 && info'[id].lastSuccess == 0
    ensures TriedKept(info, info') && (TimesOk(info) ==> TimesOk(info'))
  {}

  lemma AddrKnown(info: InfoMap, addr: map<NetAddr, int>, ip: NetAddr)
    requires AddrOk(info, addr)
    ensures ip in addr ==> addr[ip] in info && info[addr[ip]].Ip() == ip
  {}

  /** An address is known afterwards iff its entry survived. */
  lemma KnownIff(info: InfoMap, addr: map<NetAddr, int>, info': InfoMap, addr': map<NetAddr, int>, gone: set<int>, id: int)
    requires AddrOk(info, addr) && AddrOk(info', addr') && Removed(info, info', gone) && id in info
    ensures info[id].Ip() in addr' <==> id in info'
    ensures id in info' ==> addr'[info[id].Ip()] == id
  {
    var ip := info[id].Ip();
    if ip in addr' {
      var x := addr'[ip];
      assert x in info' && info'[x].Ip() == ip;
      assert SameEntry(info[x], info'[x]);
    }
  }

  /** The table without the slots of an entry. */
  ghost function Without(t: Table, id: int): Table {
    map s | s in t && t[s] != id :: t[s]
  }

  /** The new table with what a tried slot holds, if anything, at the place that its own source selects. */
  ghost function Relisted(h: Hashes, info: InfoMap, newT: Table, triedT: Table, slot: Slot): Table {
    if slot in triedT && triedT[slot] in info then
      var e := info[triedT[slot]];
      newT[h.NewSlot(e.addr.service, e.source) := triedT[slot]]
    else newT
  }

  lemma PutErased(t: Table, slot: Slot, id: int)
    ensures (t - {slot})[slot := id] == t[slot := id]
  {}

  /** A slot is free, or its entry is of no use or listed elsewhere while the newcomer is not listed at all. */
  ghost predicate SlotYields(info: InfoMap, newT: Table, slot: Slot, refCount: int, now: int) {
    slot in newT ==>
      var id := newT[slot];
      id in info && (IsTerrible(info[id], now) || (info[id].refCount > 1 && refCount == 0))
  }

  ghost predicate SlotTaken(info: InfoMap, newT: Table, slot: Slot, nId: int, now: int)
    requires nId in info
  {
    !(slot in newT && newT[slot] == nId) && SlotYields(info, newT, slot, info[nId].refCount, now)
  }

  lemma TakenAfterRenewal(info: InfoMap, info': InfoMap, newT: Table, slot: Slot, nId: int, now: int)
    requires nId in info && nId in info' && info' == info[nId := info'[nId]] && info'[nId].refCount == info[nId].refCount
    ensures SlotTaken(info', newT, slot, nId, now) <==> SlotTaken(info, newT, slot, nId, now)
  {}

  /** RandomInt: a number below n. */
  function Draw(random: nat -> nat, n: nat): nat {
    if n == 0 then 0 else random(n) % n
  }

  /**
   * News of a known entry leads on to one more bucket if the entry is untried, in N < 8 buckets and older than the news,
   * and one of 2^N equally likely numbers is drawn.
   */
  ghost predicate Persuades(e: Info, a: Address, random: nat -> nat) {
    && !e.inTried && 0 <= e.refCount < NEW_BUCKETS_PER_ADDRESS
    && a.time != 0 && (e.addr.time == 0 || e.addr.time < a.time)
    && Draw(random, Pow(2, e.refCount)) == 0
  }

  /** How many addresses GetAddr_ gives away: 23 percent, but at most 2500. */
  ghost function Quota(n: nat): nat {
    if 23 * n / 100 < 2500 then 23 * n / 100 else 2500
  }

  lemma QuotaDef(n: nat)
    ensures var m := GETADDR_MAX_PCT * n / 100; Quota(n) == if m > GETADDR_MAX then GETADDR_MAX else m
  {}

  /** A random place from p on. */
  function DrawFrom(random: nat -> nat, p: nat, n: nat): (q: nat)
    requires p < n
    ensures p <= q < n
  {
    p + random(p) % (n - p)
  }

  /** The first n places each swapped with a random one from there on. */
  ghost function Shuffled(rnd: seq<int>, random: nat -> nat, n: nat): (r: seq<int>)
    requires n <= |rnd|
    ensures |r| == |rnd|
  {
    if n == 0 then rnd else
      var r, p := Shuffled(rnd, random, n - 1), n - 1;
      var q := DrawFrom(random, p, |rnd|);
      r[p := r[q]][q := r[p]]
  }

  /** Shuffling loses no entry and invents none. */
  lemma {:induction false} ShuffledSame(rnd: seq<int>, random: nat -> nat, n: nat)
    requires n <= |rnd|
    ensures multiset(Shuffled(rnd, random, n)) == multiset(rnd)
  {
    hide Shuffled;
    if n == 0 {
      ShuffledStart(rnd, random);
    } else {
      var p := n - 1;
      ShuffledNext(rnd, random, p);
      ShuffledSame(rnd, random, p);
      SwapSame(Shuffled(rnd, random, p), p, DrawFrom(random, p, |rnd|));
    }
  }

  lemma ShuffledStart(rnd: seq<int>, random: nat -> nat)
    ensures Shuffled(rnd, random, 0) == rnd
  {}

  lemma ShuffledNext(rnd: seq<int>, random: nat -> nat, p: nat)
    requires p < |rnd|
    ensures var r, q := Shuffled(rnd, random, p), DrawFrom(random, p, |rnd|); Shuffled(rnd, random, p + 1) == r[p := r[q]][q := r[p]]
  {}

  lemma SwapSame(r: seq<int>, p: nat, q: nat)
    requires p < |r| && q < |r|
    ensures multiset(r[p := r[q]][q := r[p]]) == multiset(r)
  {
    var r1 := r[p := r[q]];
    assert multiset(r1) == multiset(r)[r[p] := multiset(r)[r[p]] - 1][r[q] := multiset(r)[r[p] := multiset(r)[r[p]] - 1][r[q]] + 1];
  }

  /** What Add_ does to the statistics of a known entry. */
  function Renewed(info: Info, a: Address, nTimePenalty: int, now: int): (r: Info)
    ensures r == info.(addr := r.addr) && r.addr.service == info.addr.service
  {
    var fCurrentlyOnline := now - a.time < 24 * 60 * 60;
    var nUpdateInterval := if fCurrentlyOnline then 60 * 60 else 24 * 60 * 60;
    var time :=
      if a.time != 0 && (info.addr.time == 0 || info.addr.time < a.time - nUpdateInterval - nTimePenalty)
      then if a.time - nTimePenalty > 0 then a.time - nTimePenalty else 0
      else info.addr.time;
    info.(addr := Address(info.addr.service, info.addr.services | a.services, time))
  }

  /**
   * The time of a known entry is set to that of the news less the penalty exactly if it was not set or is older by more
   * than an hour and the penalty, or a day and the penalty for news from more than a day ago; so it only advances.
   * No service is forgotten.
   */
  lemma RenewedTime(info: Info, a: Address, penalty: int, now: int)
    ensures var t, t' := info.addr.time, Renewed(info, a, penalty, now).addr.time;
            var late := a.time != 0 && (t == 0 || a.time - t > penalty + if now - a.time < 86400 then 3600 else 86400);
            && (late ==> t' == a.time - penalty || (t' == 0 && a.time <= penalty))
            && (!late ==> t' == t)
            && (t != 0 ==> t <= t')
    ensures Renewed(info, a, penalty, now).addr.services == info.addr.services | a.services
  {}

  /** The stochastic test: one of 2^N equally likely numbers passes for a previous reference count of N. */
  method Lucky(refCount: nat, random: nat -> nat) returns (pass: bool)
    ensures pass <==> Draw(random, Pow(2, refCount)) == 0
  {
    var nFactor := 1;
    var n := 0;
    while n < refCount
      invariant n <= refCount && nFactor == Pow(2, n) > 0
    {
      nFactor := nFactor * 2;
      n := n + 1;
    }
    pass := !(nFactor > 1 && Draw(random, nFactor) != 0);
  }

  lemma TimesSurvive(info: InfoMap, info': InfoMap)
    requires Survive(info, info', {})
    ensures TimesOk(info) ==> TimesOk(info')
  {}

  datatype Op =
    | OpAdd(a: Address, source: NetAddr, penalty: int, random: nat -> nat, now: int)
    | OpGood(addr: Service, now: int)
    | OpAttempt(addr: Service, countFailure: bool, now: int)
    | OpConnected(addr: Service, now: int)
    | OpSetServices(addr: Service, services: bv64, now: int)
    | OpGetAddr(random: nat -> nat, now: int)

  /** The time of the last success reported by the operations. */
  ghost function LastGood(before: int, ops: seq<Op>): int {
    if ops == [] then before
    else if ops[|ops| - 1].OpGood? then ops[|ops| - 1].now
    else LastGood(before, ops[..|ops| - 1])
  }
}
