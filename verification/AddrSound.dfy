/**
 * What loading an address file keeps whatever the file holds (Unserialize in src/addrman.h): both tables
 * and the reference counts are always right, and only the address index can come out wrong.
 */
module AddrSound {
  import opened AddrTables

  /** Every address leads to some entry with it: the one loaded last. */
  ghost predicate LastWins(info: InfoMap, addr: map<NetAddr, int>) {
    && (forall id :: id in info ==> info[id].Ip() in addr)
    && (forall a :: a in addr ==> addr[a] in info && info[addr[a]].Ip() == a)
  }

  /** The tables and counts of a partly loaded file; any entry may still be without a reference. */
  ghost predicate Sound(h: Hashes, info: InfoMap, newT: Table, triedT: Table) {
    NewOk(h, info, newT) && TriedOk(h, info, triedT) && RefsOk(info, newT, info.Keys)
  }

  lemma SoundNone(h: Hashes)
    ensures Sound(h, map[], map[], map[]) && LastWins(map[], map[])
  {}

  lemma LastWinsNext(info: InfoMap, addr: map<NetAddr, int>, id: int, e: Info)
    requires LastWins(info, addr) && id !in info
    ensures LastWins(info[id := e], addr[e.Ip() := id])
  {}

  lemma LastWinsCount(info: InfoMap, addr: map<NetAddr, int>, id: int, n: int)
    requires LastWins(info, addr) && id in info
    ensures LastWins(info[id := info[id].(refCount := n)], addr)
  {}

  lemma PendingMore(info: InfoMap, newT: Table, pending: set<int>)
    requires RefsOk(info, newT, pending) && pending <= info.Keys
    ensures RefsOk(info, newT, info.Keys)
  {
    forall id | id in info
      ensures RefOk(info[id], newT, id, id in info.Keys)
    {
      assert RefOk(info[id], newT, id, id in pending);
    }
  }

  /** An untried entry without references. */
  lemma SoundNew(h: Hashes, info: InfoMap, newT: Table, triedT: Table, id: int, e: Info)
    requires Sound(h, info, newT, triedT) && id !in info && !e.inTried && e.refCount == 0
    ensures Sound(h, info[id := e], newT, triedT)
  {
    hide NewOk, TriedOk, RefsOk;
    CreatedTables(h, info, newT, triedT, info.Keys, id, e);
    assert info[id := e].Keys == info.Keys + {id};
  }

  /** A tried entry, if its slot is free. */
  lemma SoundTried(h: Hashes, info: InfoMap, newT: Table, triedT: Table, id: int, e: Info)
    requires Sound(h, info, newT, triedT) && id !in info && e.inTried && e.refCount == 0
    requires h.TriedSlot(e.addr.service) !in triedT
    ensures Sound(h, info[id := e], newT, triedT[h.TriedSlot(e.addr.service) := id])
  {
    hide NewOk, TriedOk, RefsOk;
    var info1 := info[id := e.(inTried := false)];
    SoundNew(h, info, newT, triedT, id, e.(inTried := false));
    NoRefs(h, info, newT, id);
    MovedTables(h, info1, newT, info1.Keys, id, e);
    ToTriedTable(h, info1, triedT, id);
    assert info1[id := e] == info[id := e] && info1[id].(inTried := true) == e;
    PendingMore(info[id := e], newT, info1.Keys - {id});
  }

  /** One more reference. */
  lemma SoundRef(h: Hashes, info: InfoMap, newT: Table, triedT: Table, slot: Slot, id: int)
    requires Sound(h, info, newT, triedT) && slot !in newT && id in info && !info[id].inTried
    requires info[id].refCount < NEW_BUCKETS_PER_ADDRESS
    requires slot.bucket < NEW_BUCKET_COUNT && slot == h.NewSlotIn(info[id].addr.service, slot.bucket)
    ensures Sound(h, info[id := info[id].(refCount := info[id].refCount + 1)], newT[slot := id], triedT)
  {
    hide NewOk, TriedOk, RefsOk;
    var info' := info[id := info[id].(refCount := info[id].refCount + 1)];
    ReferencedRefs(info, newT, info.Keys, slot, id);
    ReferencedSlots(h, info, newT, slot, id);
    RefCountTried(h, info, triedT, id, info[id].refCount + 1);
    PendingMore(info', newT[slot := id], info.Keys - {id});
  }

  /** Losing an unreferenced entry, with the random order changed. */
  lemma SoundDeleted(h: Hashes, info: InfoMap, newT: Table, triedT: Table, id: int, info': InfoMap)
    requires Sound(h, info, newT, triedT) && id in info && !info[id].inTried && info[id].refCount == 0
    requires Similar(info - {id}, info')
    ensures Sound(h, info', newT, triedT)
  {
    hide NewOk, TriedOk, RefsOk;
    var info1 := info - {id};
    DeletedTables(h, info, newT, triedT, info.Keys, id);
    SimilarTables(h, info1, info', newT, triedT);
    SimilarRefs(info1, info', newT, info.Keys - {id});
    assert info'.Keys == info.Keys - {id};
  }

  lemma SimilarRefs(info: InfoMap, info': InfoMap, newT: Table, pending: set<int>)
    requires Similar(info, info') && RefsOk(info, newT, pending)
    ensures RefsOk(info', newT, pending)
  {
    forall id | id in info'
      ensures RefOk(info'[id], newT, id, id in pending)
    {
      assert RefOk(info[id], newT, id, id in pending);
    }
  }

  /** Once nothing unreferenced is left, no entry is pending. */
  lemma NonePending(info: InfoMap, newT: Table)
    requires RefsOk(info, newT, info.Keys) && forall id :: id in info ==> info[id].inTried || info[id].refCount != 0
    ensures RefsOk(info, newT, {})
  {
    forall id | id in info
      ensures RefOk(info[id], newT, id, id in {})
    {
      assert RefOk(info[id], newT, id, id in info.Keys);
    }
  }

  // ----- the address index after pruning ----------------------------------------------------------------------------

  /** No entry that is left shares its address with another one that was loaded. */
  ghost predicate Unshared(loaded: InfoMap, info: InfoMap) {
    forall id, k :: id in info && k in loaded && k != id ==> info[id].Ip() != loaded[k].Ip()
  }

  /** Entries were lost, and with each the index entry of its address. */
  ghost predicate Pruned(loaded: InfoMap, addr: map<NetAddr, int>, info: InfoMap, addr': map<NetAddr, int>) {
    && (forall id :: id in info ==> id in loaded && info[id].Ip() == loaded[id].Ip())
    && (forall a :: a in addr' <==> a in addr && Spared(loaded, info, a))
    && (forall a :: a in addr' ==> addr'[a] == addr[a])
  }

  /** No entry with this address was lost. */
  ghost predicate Spared(loaded: InfoMap, info: InfoMap, a: NetAddr) {
    forall k :: k in loaded && loaded[k].Ip() == a ==> k in info
  }

  lemma PrunedNone(loaded: InfoMap, addr: map<NetAddr, int>)
    ensures Pruned(loaded, addr, loaded, addr)
  {}

  lemma PrunedNext(loaded: InfoMap, addr: map<NetAddr, int>, info: InfoMap, addr1: map<NetAddr, int>, id: int, info': InfoMap)
    requires Pruned(loaded, addr, info, addr1) && id in info && Similar(info - {id}, info')
    ensures Pruned(loaded, addr, info', addr1 - {info[id].Ip()})
  {
    forall k | k in info'
      ensures k in loaded && info'[k].Ip() == loaded[k].Ip()
    {
      assert SameKeys((info - {id})[k], info'[k]);
    }
    forall a
      ensures a in addr1 - {info[id].Ip()} <==> a in addr && Spared(loaded, info', a)
    {
      if a == info[id].Ip() {
        assert loaded[id].Ip() == a && id !in info';
      } else {
        assert forall k :: k in loaded && loaded[k].Ip() == a ==> (k in info' <==> k in info);
        assert Spared(loaded, info', a) <==> Spared(loaded, info, a);
      }
    }
  }

  /** After pruning the index is right exactly if no entry that is left shares its address with another loaded one. */
  lemma AddrOkIff(loaded: InfoMap, addr: map<NetAddr, int>, info: InfoMap, addr': map<NetAddr, int>)
    requires LastWins(loaded, addr) && Pruned(loaded, addr, info, addr')
    ensures AddrOk(info, addr') <==> Unshared(loaded, info)
  {
    if Unshared(loaded, info) {
      UnsharedOk(loaded, addr, info, addr');
    }
    if AddrOk(info, addr') {
      forall id, k | id in info && k in loaded && k != id
        ensures info[id].Ip() != loaded[k].Ip()
      {
        assert info[id].Ip() in addr';
        assert Spared(loaded, info, info[id].Ip());
      }
    }
  }

  lemma UnsharedOk(loaded: InfoMap, addr: map<NetAddr, int>, info: InfoMap, addr': map<NetAddr, int>)
    requires LastWins(loaded, addr) && Pruned(loaded, addr, info, addr') && Unshared(loaded, info)
    ensures AddrOk(info, addr')
  {
    forall id | id in info
      ensures info[id].Ip() in addr' && addr'[info[id].Ip()] == id
    {
      var a := info[id].Ip();
      assert loaded[id].Ip() in addr;
      assert Spared(loaded, info, a);
      assert addr[a] == id;
    }
    forall a | a in addr'
      ensures addr'[a] in info && info[addr'[a]].Ip() == a
    {
      assert Spared(loaded, info, a);
    }
  }
}
