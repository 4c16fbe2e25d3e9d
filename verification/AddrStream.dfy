/**
 * Address files (src/addrman.h) and what an arbitrary one means to the loader: which tried entries find their
 * slot free, which untried entries get a slot of the new table, and when the result is consistent. Everything
 * is a function of the file and the keyed hashes.
 */
module AddrStream {
  import opened AddrSound
  import opened AddrTables
  import opened Basics

  /** The fields of an entry that are written. */
  datatype Persisted = Persisted(addr: Address, source: NetAddr, lastSuccess: int, attempts: int)

  function Persist(e: Info): Persisted {
    Persisted(e.addr, e.source, e.lastSuccess, e.attempts)
  }

  /** A default-constructed entry with the written fields read into it. */
  function Restore(p: Persisted): Info {
    Info(p.addr, p.source, 0, 0, p.lastSuccess, p.attempts, 0, false, -1)
  }

  /** A file, field by field. */
  datatype Stream = Stream(version: nat, keySize: nat, key: nat, nNew: int, nTried: int, nUBuckets: bv32,
                           newInfos: seq<Persisted>, triedInfos: seq<Persisted>, buckets: seq<seq<int>>)

  /** What disguises the number of buckets from version 0. */
  const BUCKET_TAG: bv32 := 0x4000_0000
  const BUCKETS: bv32 := 1024

  function Signed(x: bv32): int {
    if x < 0x8000_0000 then x as int else x as int - 0x1_0000_0000
  }

  /** A 32-bit number read as signed: congruent to it, and less than 2^31 in size. */
  lemma SignedRange(x: bv32)
    ensures -0x8000_0000 <= Signed(x) < 0x8000_0000 && (Signed(x) == x as int || Signed(x) + 0x1_0000_0000 == x as int)
  {}

  lemma BucketCount()
    ensures Signed(BUCKETS ^ BUCKET_TAG ^ BUCKET_TAG) == NEW_BUCKET_COUNT
  {
    assert BUCKETS ^ BUCKET_TAG ^ BUCKET_TAG == BUCKETS;
  }

  /** The number of buckets, which newer versions disguise. */
  function BucketsOf(s: Stream): int {
    Signed(if s.version != 0 then s.nUBuckets ^ BUCKET_TAG else s.nUBuckets)
  }

  /** The counts are within their limits and the file does not end early. */
  predicate Readable(s: Stream) {
    && s.keySize == 32 && s.nNew <= NEW_BUCKET_COUNT * BUCKET_SIZE && s.nTried <= TRIED_BUCKET_COUNT * BUCKET_SIZE
    && Complete(s)
  }

  predicate Complete(s: Stream) {
    s.nNew <= |s.newInfos| && s.nTried <= |s.triedInfos| && BucketsOf(s) <= |s.buckets|
  }

  // ----- tried entries ----------------------------------------------------------------------------------------

  function TriedSlotOf(s: Stream, h: Hashes, k: nat): Slot
    requires k < |s.triedInfos|
  {
    h.TriedSlot(s.triedInfos[k].addr.service)
  }

  /** No tried entry before it in the file has the same slot. */
  ghost predicate SlotFree(s: Stream, h: Hashes, k: nat)
    requires k < |s.triedInfos|
  {
    forall j: nat :: j < k ==> TriedSlotOf(s, h, j) != TriedSlotOf(s, h, k)
  }

  /** The first n tried entries that are kept, by their places in the file. */
  ghost function Kept(s: Stream, h: Hashes, n: nat): (l: seq<nat>)
    requires n <= |s.triedInfos|
    ensures forall i :: 0 <= i < |l| ==> l[i] < n && SlotFree(s, h, l[i])
    ensures forall i, j :: 0 <= i < j < |l| ==> l[i] < l[j]
  {
    if n == 0 then [] else
    Kept(s, h, n - 1) + if SlotFree(s, h, n - 1) then [n - 1] else []
  }

  lemma {:induction false} KeptAll(s: Stream, h: Hashes, n: nat, k: nat)
    requires k < n <= |s.triedInfos| && SlotFree(s, h, k)
    ensures k in Kept(s, h, n)
  {
    if k < n - 1 {
      KeptAll(s, h, n - 1, k);
    }
  }

  /** The slots of the tried table that are taken after n entries. */
  ghost predicate TriedTaken(s: Stream, h: Hashes, triedT: Table, n: nat)
    requires n <= |s.triedInfos|
  {
    forall slot :: slot in triedT <==> exists j: nat :: j < n && TriedSlotOf(s, h, j) == slot
  }

  lemma TakenNext(s: Stream, h: Hashes, triedT: Table, n: nat, id: int)
    requires n < |s.triedInfos| && TriedTaken(s, h, triedT, n)
    ensures SlotFree(s, h, n) <==> TriedSlotOf(s, h, n) !in triedT
    ensures TriedTaken(s, h, if SlotFree(s, h, n) then triedT[TriedSlotOf(s, h, n) := id] else triedT, n + 1)
  {
    var slot0 := TriedSlotOf(s, h, n);
    var t := if SlotFree(s, h, n) then triedT[slot0 := id] else triedT;
    var n' := n + 1;
    forall slot
      ensures slot in t <==> exists j: nat :: j < n' && TriedSlotOf(s, h, j) == slot
    {
      if slot in triedT {
        var j: nat :| j < n && TriedSlotOf(s, h, j) == slot;
        assert j < n';
      } else if slot == slot0 {
        assert n < n';
      }
    }
  }

  // ----- the new table --------------------------------------------------------------------------------------------

  /** The bucket lists of the file can be used. */
  predicate UsesBuckets(s: Stream) {
    s.version == 1 && BucketsOf(s) == NEW_BUCKET_COUNT
  }

  /** Without bucket lists, each of the first n untried entries takes the slot its source selects, if that is free. */
  ghost function SourceTable(s: Stream, h: Hashes, n: nat): Table
    requires n <= |s.newInfos|
  {
    if n == 0 then map[] else
    SourceStep(s, h, SourceTable(s, h, n - 1), n - 1)
  }

  ghost function SourceStep(s: Stream, h: Hashes, newT: Table, i: nat): Table
    requires i < |s.newInfos|
  {
    var slot := h.NewSlot(s.newInfos[i].addr.service, s.newInfos[i].source);
    if slot in newT then newT else newT[slot := i]
  }

  /** One index x in the list of bucket b: entry x takes its slot there, if that is free and x has fewer than eight. */
  ghost function ListStep(s: Stream, h: Hashes, newT: Table, b: nat, x: int): Table
    requires s.nNew <= |s.newInfos|
  {
    if !(0 <= x < s.nNew) then newT else
    var slot := h.NewSlotIn(s.newInfos[x].addr.service, b);
    if slot !in newT && |Refs(newT, x)| < NEW_BUCKETS_PER_ADDRESS then newT[slot := x] else newT
  }

  /** The first n indexes of the list of bucket b. */
  ghost function ListTable(s: Stream, h: Hashes, newT: Table, b: nat, l: seq<int>, n: nat): Table
    requires s.nNew <= |s.newInfos| && n <= |l|
  {
    if n == 0 then newT else ListStep(s, h, ListTable(s, h, newT, b, l, n - 1), b, l[n - 1])
  }

  /** The lists of the first b buckets. */
  ghost function BucketTable(s: Stream, h: Hashes, b: nat): Table
    requires s.nNew <= |s.newInfos| && b <= |s.buckets|
  {
    if b == 0 then map[] else
    ListTable(s, h, BucketTable(s, h, b - 1), b - 1, s.buckets[b - 1], |s.buckets[b - 1]|)
  }

  /** The new table that a file makes. */
  ghost function NewTable(s: Stream, h: Hashes): Table
    requires 0 <= s.nNew && Complete(s)
  {
    if UsesBuckets(s) then BucketTable(s, h, NEW_BUCKET_COUNT) else SourceTable(s, h, s.nNew)
  }

  // ----- what is loaded, and what is left ------------------------------------------------------------------------

  ghost function KeptOf(s: Stream, h: Hashes): seq<nat>
    requires Complete(s)
  {
    Kept(s, h, Max(0, s.nTried))
  }

  /** Where in the file the entry with an id comes from. */
  ghost function Origin(s: Stream, nNew: int, kept: seq<nat>, id: int): Persisted
    requires 0 <= nNew <= |s.newInfos| && 0 <= id < nNew + |kept| && forall i :: 0 <= i < |kept| ==> kept[i] < |s.triedInfos|
  {
    if id < nNew then s.newInfos[id] else s.triedInfos[kept[id - nNew]]
  }

  /** The loaded entries, up to their places in the tables and the random order. */
  ghost predicate OfFile(s: Stream, info: InfoMap, nNew: int, kept: seq<nat>) {
    && 0 <= nNew <= |s.newInfos| && (forall i :: 0 <= i < |kept| ==> kept[i] < |s.triedInfos|)
    && (forall id :: id in info <==> 0 <= id < nNew + |kept|)
    && (forall id :: id in info ==> Restored(info[id], Origin(s, nNew, kept, id), nNew <= id))
  }

  ghost predicate Restored(e: Info, p: Persisted, inTried: bool) {
    e == Info(p.addr, p.source, 0, 0, p.lastSuccess, p.attempts, e.refCount, inTried, e.randomPos)
  }

  lemma OfFileNext(s: Stream, info: InfoMap, nNew: int, kept: seq<nat>, id: int, e: Info, n: nat)
    requires OfFile(s, info, nNew, kept) && n < |s.triedInfos|
    requires id !in info && id >= nNew && (forall k :: k in info ==> k < id) && (forall k :: nNew <= k < id ==> k in info)
    requires Restored(e, s.triedInfos[n], true)
    ensures OfFile(s, info[id := e], nNew, kept + [n])
  {
    assert nNew + |kept| !in info && (id in info <==> 0 <= id < nNew + |kept|);
    assert id == nNew + |kept|;
  }

  lemma OfFileNew(s: Stream, info: InfoMap, info': InfoMap, n: nat)
    requires OfFile(s, info, n, []) && n < |s.newInfos| && info'.Keys == info.Keys + {n} && Restored(info'[n], s.newInfos[n], false)
    requires forall id :: id in info ==> info'[id] == info[id]
    ensures OfFile(s, info', n + 1, [])
  {
    forall id
      ensures id in info' <==> 0 <= id < n + 1
    {
      assert id in info'.Keys <==> id in info.Keys || id == n;
    }
  }

  lemma OfFileNone(s: Stream)
    ensures OfFile(s, map[], 0, [])
  {}

  /** The same entries with other reference counts. */
  ghost predicate SameButCounts(info: InfoMap, info': InfoMap) {
    info'.Keys == info.Keys && forall id :: id in info ==> info'[id] == info[id].(refCount := info'[id].refCount)
  }

  lemma OfFileSame(s: Stream, info: InfoMap, info': InfoMap, nNew: int, kept: seq<nat>)
    requires OfFile(s, info, nNew, kept) && SameButCounts(info, info')
    ensures OfFile(s, info', nNew, kept)
  {
    forall id
      ensures id in info' <==> id in info
    {
      assert id in info'.Keys <==> id in info.Keys;
    }
  }

  /** Is the entry left after pruning: tried, or with a slot of the new table? */
  ghost predicate Left(s: Stream, h: Hashes, id: int)
    requires 0 <= s.nNew && Complete(s)
  {
    s.nNew <= id || id in NewTable(s, h).Values
  }

  /** The entries that a file leaves, exactly, up to their places in the random order. */
  ghost predicate Contents(s: Stream, h: Hashes, info: InfoMap)
    requires 0 <= s.nNew && Complete(s)
  {
    && (forall id :: id in info <==> 0 <= id < s.nNew + |KeptOf(s, h)| && Left(s, h, id))
    && (forall id :: id in info ==> LeftAs(s, h, info[id], id))
  }

  ghost predicate LeftAs(s: Stream, h: Hashes, e: Info, id: int)
    requires 0 <= s.nNew && Complete(s)
  {
    && 0 <= id < s.nNew + |KeptOf(s, h)|
    && Restored(e, Origin(s, s.nNew, KeptOf(s, h), id), s.nNew <= id) && e.refCount == |Refs(NewTable(s, h), id)|
  }

  // ----- when the result is consistent --------------------------------------------------------------------------------

  function NewIp(s: Stream, i: nat): NetAddr
    requires i < |s.newInfos|
  {
    s.newInfos[i].addr.service.ip
  }

  function TriedIp(s: Stream, k: nat): NetAddr
    requires k < |s.triedInfos|
  {
    s.triedInfos[k].addr.service.ip
  }

  /**
   * Addresses that matter differ: that of an untried entry with a slot from those of all other untried entries;
   * that of a kept tried entry from those of all untried entries, with or without a slot, and of all other kept
   * tried entries.
   */
  ghost predicate Consistent(s: Stream, h: Hashes)
    requires 0 <= s.nNew && Complete(s)
  {
    && (forall i: nat, j: nat {:trigger NewIp(s, i), NewIp(s, j)} ::
          i < s.nNew && j < s.nNew && i != j && i in NewTable(s, h).Values ==> NewIp(s, i) != NewIp(s, j))
    && (forall i: nat, k: nat {:trigger NewIp(s, i), TriedIp(s, k)} ::
          i < s.nNew && k < s.nTried && SlotFree(s, h, k) ==> NewIp(s, i) != TriedIp(s, k))
    && (forall j: nat, k: nat {:trigger TriedIp(s, j), TriedIp(s, k)} ::
          j < k < s.nTried && SlotFree(s, h, j) && SlotFree(s, h, k) ==> TriedIp(s, j) != TriedIp(s, k))
  }

  /** The place of an id among the tried entries. */
  lemma TriedPlace(s: Stream, h: Hashes, id: int) returns (k: nat)
    requires 0 <= s.nNew && Complete(s) && s.nNew <= id < s.nNew + |KeptOf(s, h)|
    ensures k < s.nTried && SlotFree(s, h, k) && k == KeptOf(s, h)[id - s.nNew]
    ensures Origin(s, s.nNew, KeptOf(s, h), id).addr.service.ip == TriedIp(s, k)
  {
    k := KeptOf(s, h)[id - s.nNew];
  }

  lemma TriedId(s: Stream, h: Hashes, k: nat) returns (id: int)
    requires 0 <= s.nNew && Complete(s) && k < s.nTried && SlotFree(s, h, k)
    ensures s.nNew <= id < s.nNew + |KeptOf(s, h)| && k == KeptOf(s, h)[id - s.nNew]
    ensures Origin(s, s.nNew, KeptOf(s, h), id).addr.service.ip == TriedIp(s, k)
  {
    hide Kept, SlotFree, BucketsOf;
    KeptAll(s, h, s.nTried, k);
    var i :| 0 <= i < |KeptOf(s, h)| && KeptOf(s, h)[i] == k;
    id := s.nNew + i;
  }

  /** Which ids have which addresses. */
  ghost predicate Ips(s: Stream, h: Hashes, loaded: InfoMap)
    requires 0 <= s.nNew && Complete(s)
  {
    && (forall id :: id in loaded <==> 0 <= id < s.nNew + |KeptOf(s, h)|)
    && (forall id :: id in loaded ==> loaded[id].Ip() == Origin(s, s.nNew, KeptOf(s, h), id).addr.service.ip)
  }

  ghost predicate LeftOf(s: Stream, h: Hashes, loaded: InfoMap, info: InfoMap)
    requires 0 <= s.nNew && Complete(s)
  {
    forall id :: (id in info <==> id in loaded && Left(s, h, id)) && (id in info ==> id in loaded && info[id].Ip() == loaded[id].Ip())
  }

  /** No entry that is left shares its address with another loaded one exactly if the file is consistent. */
  lemma UnsharedIff(s: Stream, h: Hashes, loaded: InfoMap, info: InfoMap)
    requires 0 <= s.nNew && Complete(s) && Ips(s, h, loaded) && LeftOf(s, h, loaded, info)
    ensures Unshared(loaded, info) <==> Consistent(s, h)
  {
    if Consistent(s, h) {
      ConsistentUnshared(s, h, loaded, info);
    }
    if Unshared(loaded, info) {
      UnsharedNew(s, h, loaded, info);
      UnsharedMixed(s, h, loaded, info);
      UnsharedTried(s, h, loaded, info);
    }
  }

  lemma ConsistentUnshared(s: Stream, h: Hashes, loaded: InfoMap, info: InfoMap)
    requires 0 <= s.nNew && Complete(s) && Ips(s, h, loaded) && LeftOf(s, h, loaded, info) && Consistent(s, h)
    ensures Unshared(loaded, info)
  {
    hide NewTable, KeptOf, SlotFree;
    forall id, k | id in info && k in loaded && k != id
      ensures info[id].Ip() != loaded[k].Ip()
    {
      if id < s.nNew && k < s.nNew {
        assert NewIp(s, id) != NewIp(s, k);
      } else if id < s.nNew {
        var b := TriedPlace(s, h, k);
        assert NewIp(s, id) != TriedIp(s, b);
      } else if k < s.nNew {
        var a := TriedPlace(s, h, id);
        assert NewIp(s, k) != TriedIp(s, a);
      } else {
        TwoTried(s, h, id, k);
      }
    }
  }

  lemma TwoTried(s: Stream, h: Hashes, id: int, k: int)
    requires 0 <= s.nNew && Complete(s) && Consistent(s, h) && id != k
    requires s.nNew <= id < s.nNew + |KeptOf(s, h)| && s.nNew <= k < s.nNew + |KeptOf(s, h)|
    ensures Origin(s, s.nNew, KeptOf(s, h), id).addr.service.ip != Origin(s, s.nNew, KeptOf(s, h), k).addr.service.ip
  {
    hide NewTable, SlotFree;
    var a := TriedPlace(s, h, id);
    var b := TriedPlace(s, h, k);
    assert a < b || b < a;
    assert TriedIp(s, a) != TriedIp(s, b);
  }

  lemma UnsharedNew(s: Stream, h: Hashes, loaded: InfoMap, info: InfoMap)
    requires 0 <= s.nNew && Complete(s) && Ips(s, h, loaded) && LeftOf(s, h, loaded, info) && Unshared(loaded, info)
    ensures forall i: nat, j: nat {:trigger NewIp(s, i), NewIp(s, j)} ::
              i < s.nNew && j < s.nNew && i != j && i in NewTable(s, h).Values ==> NewIp(s, i) != NewIp(s, j)
  {
    hide NewTable, KeptOf;
    forall i: nat, j: nat {:trigger NewIp(s, i), NewIp(s, j)} | i < s.nNew && j < s.nNew && i != j && i in NewTable(s, h).Values
      ensures NewIp(s, i) != NewIp(s, j)
    {
      assert Left(s, h, i) && i in loaded && j in loaded && i in info;
    }
  }

  lemma UnsharedMixed(s: Stream, h: Hashes, loaded: InfoMap, info: InfoMap)
    requires 0 <= s.nNew && Complete(s) && Ips(s, h, loaded) && LeftOf(s, h, loaded, info) && Unshared(loaded, info)
    ensures forall i: nat, k: nat {:trigger NewIp(s, i), TriedIp(s, k)} ::
              i < s.nNew && k < s.nTried && SlotFree(s, h, k) ==> NewIp(s, i) != TriedIp(s, k)
  {
    hide NewTable, KeptOf, SlotFree;
    forall i: nat, k: nat {:trigger NewIp(s, i), TriedIp(s, k)} | i < s.nNew && k < s.nTried && SlotFree(s, h, k)
      ensures NewIp(s, i) != TriedIp(s, k)
    {
      var id := TriedId(s, h, k);
      assert Left(s, h, id) && id in loaded && i in loaded && id in info;
    }
  }

  lemma UnsharedTried(s: Stream, h: Hashes, loaded: InfoMap, info: InfoMap)
    requires 0 <= s.nNew && Complete(s) && Ips(s, h, loaded) && LeftOf(s, h, loaded, info) && Unshared(loaded, info)
    ensures forall j: nat, k: nat {:trigger TriedIp(s, j), TriedIp(s, k)} ::
              j < k < s.nTried && SlotFree(s, h, j) && SlotFree(s, h, k) ==> TriedIp(s, j) != TriedIp(s, k)
  {
    hide NewTable, KeptOf, SlotFree;
    forall j: nat, k: nat {:trigger TriedIp(s, j), TriedIp(s, k)} | j < k < s.nTried && SlotFree(s, h, j) && SlotFree(s, h, k)
      ensures TriedIp(s, j) != TriedIp(s, k)
    {
      var a := TriedId(s, h, j);
      var b := TriedId(s, h, k);
      assert a != b && Left(s, h, a) && a in loaded && b in loaded && a in info;
    }
  }

  /** All addresses of the file differ. */
  ghost predicate AllDifferent(s: Stream) {
    && (forall i: nat, j: nat {:trigger NewIp(s, i), NewIp(s, j)} :: i < j < |s.newInfos| ==> NewIp(s, i) != NewIp(s, j))
    && (forall i: nat, k: nat {:trigger NewIp(s, i), TriedIp(s, k)} ::
          i < |s.newInfos| && k < |s.triedInfos| ==> NewIp(s, i) != TriedIp(s, k))
    && (forall j: nat, k: nat {:trigger TriedIp(s, j), TriedIp(s, k)} :: j < k < |s.triedInfos| ==> TriedIp(s, j) != TriedIp(s, k))
  }

  lemma DifferentConsistent(s: Stream, h: Hashes)
    requires 0 <= s.nNew && Complete(s) && AllDifferent(s)
    ensures Consistent(s, h)
  {
    hide NewTable, SlotFree;
    forall i: nat, j: nat {:trigger NewIp(s, i), NewIp(s, j)} | i < s.nNew && j < s.nNew && i != j
      ensures NewIp(s, i) != NewIp(s, j)
    {
      assert i < j || j < i;
    }
  }

  // ----- steps of the loader --------------------------------------------------------------------------------------------

  lemma NoneTaken(s: Stream, h: Hashes)
    ensures TriedTaken(s, h, map[], 0) && Kept(s, h, 0) == []
  {}

  lemma KeptNext(s: Stream, h: Hashes, n: nat)
    requires n < |s.triedInfos|
    ensures Kept(s, h, n + 1) == if SlotFree(s, h, n) then Kept(s, h, n) + [n] else Kept(s, h, n)
  {}

  lemma SourceNext(s: Stream, h: Hashes, n: nat)
    requires n < |s.newInfos|
    ensures SourceTable(s, h, 0) == map[] && SourceTable(s, h, n + 1) == SourceStep(s, h, SourceTable(s, h, n), n)
  {}

  lemma ListNext(s: Stream, h: Hashes, newT: Table, b: nat, x: int)
    requires s.nNew <= |s.newInfos|
    ensures !(0 <= x < s.nNew) ==> ListStep(s, h, newT, b, x) == newT
    ensures 0 <= x < s.nNew ==>
              var slot := h.NewSlotIn(s.newInfos[x].addr.service, b);
              ListStep(s, h, newT, b, x) ==
              if slot !in newT && |Refs(newT, x)| < NEW_BUCKETS_PER_ADDRESS then newT[slot := x] else newT
  {}

  lemma WhichTable(s: Stream, h: Hashes)
    requires 0 <= s.nNew && Complete(s)
    ensures NewTable(s, h) == if UsesBuckets(s) then BucketTable(s, h, NEW_BUCKET_COUNT) else SourceTable(s, h, s.nNew)
  {}

  /** Counts of the loaded entries, and which of them are to be pruned. */
  ghost predicate Counted(s: Stream, h: Hashes, loaded: InfoMap)
    requires 0 <= s.nNew && Complete(s)
  {
    && (forall id :: id in loaded ==> loaded[id].refCount == |Refs(NewTable(s, h), id)|)
    && (forall id :: id in loaded ==> (Left(s, h, id) <==> loaded[id].inTried || loaded[id].refCount != 0))
  }

  lemma LoadedCounts(s: Stream, h: Hashes, loaded: InfoMap, newT: Table, triedT: Table)
    requires 0 <= s.nNew && Complete(s) && OfFile(s, loaded, s.nNew, KeptOf(s, h)) && Sound(h, loaded, newT, triedT)
    requires newT == NewTable(s, h)
    ensures Counted(s, h, loaded)
  {
    hide NewTable, KeptOf, NewOk, TriedOk;
    forall id | id in loaded
      ensures loaded[id].refCount == |Refs(newT, id)| && (Left(s, h, id) <==> loaded[id].inTried || loaded[id].refCount != 0)
    {
      assert RefOk(loaded[id], newT, id, id in loaded.Keys);
      RefsValues(newT, id);
    }
  }

  lemma RefsValues(newT: Table, id: int)
    ensures |Refs(newT, id)| != 0 <==> id in newT.Values
  {
    if id in newT.Values {
      var slot :| slot in newT && newT[slot] == id;
      assert slot in Refs(newT, id);
    } else {
      assert Refs(newT, id) == {};
    }
  }

  /** What pruning leaves. */
  lemma LeftContents(s: Stream, h: Hashes, loaded: InfoMap, info: InfoMap)
    requires 0 <= s.nNew && Complete(s) && OfFile(s, loaded, s.nNew, KeptOf(s, h)) && Counted(s, h, loaded)
    requires forall id :: id in info <==> id in loaded && (loaded[id].inTried || loaded[id].refCount != 0)
    requires forall id :: id in info ==> info[id] == loaded[id].(randomPos := info[id].randomPos)
    ensures Contents(s, h, info) && Ips(s, h, loaded) && LeftOf(s, h, loaded, info)
  {
    hide NewTable, KeptOf, Left;
  }
}
