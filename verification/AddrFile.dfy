/**
 * The on-disk format of the address manager (Serialize and Unserialize in src/addrman.h): what is
 * written, and that reading it back rebuilds the same tables up to renumbering the entries.
 */
module AddrFile {
  import opened AddrMan
  import opened AddrSound
  import opened AddrStream
  import opened AddrTables
  import opened Basics

  // ----- the new numbering ------------------------------------------------------------------------------

  /** The ids in the order of the file: untried entries by id, then tried entries by id. */
  ghost function Listed(info: InfoMap, n: int, tried: bool): seq<int> {
    if n <= 0 then []
    else Listed(info, n - 1, tried) + if n - 1 in info && info[n - 1].inTried == tried then [n - 1] else []
  }

  lemma {:induction false} ListedMembers(info: InfoMap, n: int, tried: bool)
    ensures forall id :: id in Listed(info, n, tried) <==> 0 <= id < n && id in info && info[id].inTried == tried
    ensures Ascending(Listed(info, n, tried))
    decreases n
  {
    if n > 0 {
      ListedMembers(info, n - 1, tried);
      var l := Listed(info, n - 1, tried);
      assert forall i :: 0 <= i < |l| ==> l[i] in l;
    }
  }

  ghost predicate Ascending(s: seq<int>) {
    forall i, j :: 0 <= i < j < |s| ==> s[i] < s[j]
  }

  ghost function Order(s: State): seq<int> {
    Listed(s.info, s.next, false) + Listed(s.info, s.next, true)
  }

  /** The order lists every id once, untried ones first. */
  lemma OrderOk(s: State)
    requires Inv(s, {})
    ensures Distinct(Order(s)) && (forall id :: id in Order(s) <==> id in s.info)
    ensures |Listed(s.info, s.next, false)| == s.nNew && |Order(s)| == s.nNew + s.nTried
    ensures forall i :: 0 <= i < |Order(s)| ==> Order(s)[i] in s.info && (s.info[Order(s)[i]].inTried <==> s.nNew <= i)
  {
    hide RandomOk, AddrOk, NewOk, TriedOk, RefsOk;
    var n, t := Listed(s.info, s.next, false), Listed(s.info, s.next, true);
    ListedMembers(s.info, s.next, false);
    ListedMembers(s.info, s.next, true);
    AscendingSize(n, News(s.info));
    AscendingSize(t, Trieds(s.info));
    forall i | 0 <= i < |Order(s)|
      ensures Order(s)[i] in s.info && (s.info[Order(s)[i]].inTried <==> s.nNew <= i)
    {
      assert i < |n| ==> n[i] in n;
      assert i >= |n| ==> t[i - |n|] in t;
    }
    forall i, j | 0 <= i < j < |Order(s)|
      ensures Order(s)[i] != Order(s)[j]
    {
      if i < |n| <= j {
        assert n[i] in n && t[j - |n|] in t;
      }
    }
  }

  lemma {:induction false} AscendingSize(l: seq<int>, ids: set<int>)
    requires Ascending(l) && forall id :: id in l <==> id in ids
    ensures |l| == |ids|
    decreases |l|
  {
    if l == [] {
      assert forall id :: id in ids ==> id in l;
      assert ids == {};
    } else {
      var k := |l| - 1;
      assert l[k] in l;
      forall id
        ensures id in l[..k] <==> id in ids - {l[k]}
      {
        if id in l[..k] {
          assert id in l;
        }
        if id in ids - {l[k]} {
          var i :| 0 <= i < |l| && l[i] == id;
          assert l[..k][i] == id;
        }
      }
      AscendingSize(l[..k], ids - {l[k]});
    }
  }

  /** The new number of an id: its place in the order. */
  ghost function Rename(order: seq<int>, id: int): (i: int)
    requires id in order
    ensures 0 <= i < |order| && order[i] == id
  {
    var i :| 0 <= i < |order| && order[i] == id;
    i
  }

  lemma RenameAt(order: seq<int>, i: nat)
    requires Distinct(order) && i < |order|
    ensures order[i] in order && Rename(order, order[i]) == i
  {}

  // ----- the state that reading a written file produces -----------------------------------------------------

  ghost function Entry(s: State, i: int): Info
    requires 0 <= i < |Order(s)| && Order(s)[i] in s.info
  {
    var e := s.info[Order(s)[i]];
    Info(e.addr, e.source, 0, 0, e.lastSuccess, e.attempts, e.refCount, e.inTried, i)
  }

  ghost function Renamed(order: seq<int>, t: Table): Table {
    map slot | slot in t && t[slot] in order :: Rename(order, t[slot])
  }

  ghost function Target(s: State): State
    requires Inv(s, {})
  {
    OrderOk(s);
    var n := |Order(s)|;
    State(s.h, map i | 0 <= i < n :: Entry(s, i), map ip | ip in s.addr && s.addr[ip] in Order(s) :: Rename(Order(s), s.addr[ip]),
          seq(n, i => i), n, Renamed(Order(s), s.newT), Renamed(Order(s), s.triedT), s.nNew, s.nTried)
  }

  /**
   * Same manager up to the numbering of its entries: a bijection of ids under which the entries, both tables and
   * the counters agree.
   */
  ghost predicate SameUpTo(s: State, t: State, rename: map<int, int>) {
    && rename.Keys == s.info.Keys && rename.Values == t.info.Keys
    && (forall id, id' :: id in rename && id' in rename && rename[id] == rename[id'] ==> id == id')
    && (forall id :: id in rename && rename[id] in t.info && id in s.info ==> SameWritten(s.info[id], t.info[rename[id]]))
    && SameTable(s.newT, t.newT, rename) && SameTable(s.triedT, t.triedT, rename)
    && t.h == s.h && t.nNew == s.nNew && t.nTried == s.nTried
  }

  /** The same address, services, time, source and statistics in the same place; only the times of the last attempts are forgotten. */
  ghost predicate SameWritten(e: Info, e': Info) {
    && e'.addr == e.addr && e'.source == e.source && e'.lastSuccess == e.lastSuccess && e'.attempts == e.attempts
    && e'.inTried == e.inTried && e'.refCount == e.refCount && e'.lastTry == 0 && e'.lastCountAttempt == 0
  }

  ghost predicate SameTable(a: Table, b: Table, rename: map<int, int>) {
    a.Keys == b.Keys && forall slot :: slot in a ==> a[slot] in rename && b[slot] == rename[a[slot]]
  }

  lemma TableEntries(s: State, slot: Slot)
    requires Inv(s, {})
    ensures slot in s.newT ==> NewSlotOk(s.h, s.info, slot, s.newT[slot])
    ensures slot in s.triedT ==> TriedSlotOk(s.h, s.info, slot, s.triedT[slot])
  {}

  ghost function RenameMap(s: State): map<int, int> {
    map id | id in s.info && id in Order(s) :: Rename(Order(s), id)
  }

  lemma RenameBijective(s: State)
    requires Inv(s, {})
    ensures var m := RenameMap(s);
            && m.Keys == s.info.Keys && m.Values == Target(s).info.Keys
            && (forall id, id' :: id in m && id' in m && m[id] == m[id'] ==> id == id')
  {
    hide RandomOk, AddrOk, NewOk, TriedOk, RefsOk, CountOk, Inv;
    OrderOk(s);
    var order, m := Order(s), RenameMap(s);
    forall i | 0 <= i < |order|
      ensures i in m.Values
    {
      RenameAt(order, i);
      assert m[order[i]] == i;
    }
    assert forall id :: id in m.Keys <==> id in s.info.Keys;
    assert forall i :: i in Target(s).info <==> 0 <= i < |order|;
  }

  lemma InOrder(s: State, id: int)
    requires Inv(s, {}) && id in s.info
    ensures id in Order(s)
  {
    hide RandomOk, AddrOk, NewOk, TriedOk, RefsOk, CountOk, Inv;
    OrderOk(s);
  }

  lemma RenamedTable(s: State, t: Table)
    requires Inv(s, {}) && forall slot :: slot in t ==> t[slot] in s.info
    ensures SameTable(t, Renamed(Order(s), t), RenameMap(s))
  {
    hide RandomOk, AddrOk, NewOk, TriedOk, RefsOk, CountOk, Inv, Rename;
    OrderOk(s);
    forall slot | slot in t
      ensures t[slot] in Order(s)
    {
      InOrder(s, t[slot]);
    }
    assert forall slot :: slot in t.Keys <==> slot in Renamed(Order(s), t).Keys;
  }

  lemma TargetSame(s: State)
    requires Inv(s, {})
    ensures SameUpTo(s, Target(s), RenameMap(s))
  {
    hide RandomOk, AddrOk, NewOk, TriedOk, RefsOk, CountOk, Inv, RenameMap, SameTable;
    OrderOk(s);
    RenameBijective(s);
    var order, t, rename := Order(s), Target(s), RenameMap(s);
    forall slot
      ensures slot in s.newT ==> s.newT[slot] in s.info
      ensures slot in s.triedT ==> s.triedT[slot] in s.info
    {
      TableEntries(s, slot);
    }
    RenamedTable(s, s.newT);
    RenamedTable(s, s.triedT);
    forall id | id in s.info
      ensures rename[id] in t.info && SameWritten(s.info[id], t.info[rename[id]])
    {
      RenamedEntry(s, id);
    }
  }

  lemma RenamedEntry(s: State, id: int)
    requires Inv(s, {}) && id in s.info
    ensures id in RenameMap(s) && RenameMap(s)[id] in Target(s).info
    ensures SameWritten(s.info[id], Target(s).info[RenameMap(s)[id]])
  {
    hide RandomOk, AddrOk, NewOk, TriedOk, RefsOk, CountOk, Inv;
    OrderOk(s);
    assert Order(s)[RenameMap(s)[id]] == id;
  }

  // ----- the target satisfies the invariant -------------------------------------------------------------------

  lemma TargetIndexes(s: State)
    requires Inv(s, {})
    ensures var t := Target(s); RandomOk(t.info, t.rnd) && IdsOk(t.info, t.next) && AddrOk(t.info, t.addr)
  {
    hide RandomOk, NewOk, TriedOk, RefsOk, CountOk;
    OrderOk(s);
    var order, t := Order(s), Target(s);
    assert RandomOk(t.info, t.rnd) by { Identity(t.info, |order|); }
    forall i | i in t.info
      ensures t.info[i].Ip() in t.addr && t.addr[t.info[i].Ip()] == i
    {
      var id := order[i];
      assert s.addr[s.info[id].Ip()] == id;
      RenameAt(order, i);
    }
    forall ip | ip in t.addr
      ensures t.addr[ip] in t.info && t.info[t.addr[ip]].Ip() == ip
    {
      assert order[Rename(order, s.addr[ip])] == s.addr[ip];
    }
  }

  lemma Identity(info: InfoMap, n: nat)
    requires forall i :: i in info <==> 0 <= i < n
    requires forall i :: i in info ==> info[i].randomPos == i
    ensures RandomOk(info, seq(n, i => i))
  {}

  lemma TargetTables(s: State)
    requires Inv(s, {})
    ensures var t := Target(s); NewOk(t.h, t.info, t.newT) && TriedOk(t.h, t.info, t.triedT)
  {
    hide RandomOk, AddrOk, RefsOk, CountOk;
    OrderOk(s);
    var order, t := Order(s), Target(s);
    forall slot | slot in t.newT
      ensures NewSlotOk(t.h, t.info, slot, t.newT[slot])
    {
      assert NewSlotOk(s.h, s.info, slot, s.newT[slot]);
      assert order[t.newT[slot]] == s.newT[slot];
    }
    forall slot | slot in t.triedT
      ensures TriedSlotOk(t.h, t.info, slot, t.triedT[slot])
    {
      assert TriedSlotOk(s.h, s.info, slot, s.triedT[slot]);
      assert order[t.triedT[slot]] == s.triedT[slot];
    }
    forall i | i in t.info && t.info[i].inTried
      ensures InTable(t.h, t.info[i], t.triedT, i)
    {
      assert InTable(s.h, s.info[order[i]], s.triedT, order[i]);
      RenameAt(order, i);
    }
  }

  lemma TargetRefs(s: State)
    requires Inv(s, {})
    ensures var t := Target(s); RefsOk(t.info, t.newT, {})
  {
    hide RandomOk, AddrOk, TriedOk, CountOk;
    OrderOk(s);
    var order, t := Order(s), Target(s);
    forall i | i in t.info
      ensures RefOk(t.info[i], t.newT, i, false)
    {
      assert RefOk(s.info[order[i]], s.newT, order[i], order[i] in {});
      RenamedRefs(s, i);
    }
  }

  /** Renaming moves no reference. */
  lemma RenamedRefs(s: State, i: int)
    requires Inv(s, {}) && 0 <= i < |Order(s)|
    ensures Order(s)[i] in s.info && Refs(Target(s).newT, i) == Refs(s.newT, Order(s)[i])
  {
    hide RandomOk, AddrOk, TriedOk, RefsOk, CountOk;
    OrderOk(s);
    var order, t := Order(s), Target(s);
    forall slot
      ensures slot in Refs(t.newT, i) <==> slot in Refs(s.newT, order[i])
    {
      if slot in s.newT {
        assert NewSlotOk(s.h, s.info, slot, s.newT[slot]);
        assert order[t.newT[slot]] == s.newT[slot];
        RenameAt(order, i);
      }
    }
  }

  lemma TargetCounts(s: State)
    requires Inv(s, {})
    ensures var t := Target(s); CountOk(t.info, t.nNew, t.nTried)
  {
    hide RandomOk, AddrOk, NewOk, TriedOk, RefsOk;
    OrderOk(s);
    var t := Target(s);
    RangeSize(News(t.info), 0, s.nNew);
    RangeSize(Trieds(t.info), s.nNew, s.nNew + s.nTried);
  }

  lemma {:induction false} RangeSize(ids: set<int>, lo: int, hi: int)
    requires lo <= hi && forall i :: i in ids <==> lo <= i < hi
    ensures |ids| == hi - lo
    decreases hi - lo
  {
    if lo < hi {
      RangeSize(ids - {hi - 1}, lo, hi - 1);
    } else {
      assert forall i :: i !in ids;
    }
  }

  lemma TargetInv(s: State)
    requires Inv(s, {})
    ensures Inv(Target(s), {})
  {
    hide RandomOk, AddrOk, NewOk, TriedOk, RefsOk, CountOk, IdsOk, Target;
    TargetIndexes(s);
    TargetTables(s);
    TargetRefs(s);
    TargetCounts(s);
  }

  // ----- what is written ------------------------------------------------------------------------------------

  ghost function Written(info: InfoMap, n: int, tried: bool): seq<Persisted> {
    if n <= 0 then []
    else Written(info, n - 1, tried) + if n - 1 in info && info[n - 1].inTried == tried then [Persist(info[n - 1])] else []
  }

  /** The entries of one bucket of the new table, by position, in the new numbering. */
  ghost function BucketList(order: seq<int>, newT: Table, b: nat, p: nat): seq<int> {
    if p == 0 then []
    else BucketList(order, newT, b, p - 1) +
         if Slot(b, p - 1) in newT && newT[Slot(b, p - 1)] in order then [Rename(order, newT[Slot(b, p - 1)])] else []
  }

  ghost function Buckets(order: seq<int>, newT: Table, n: nat): (r: seq<seq<int>>)
    ensures |r| == n && forall b: nat :: b < n ==> r[b] == BucketList(order, newT, b, BUCKET_SIZE)
  {
    if n == 0 then [] else Buckets(order, newT, n - 1) + [BucketList(order, newT, n - 1, BUCKET_SIZE)]
  }

  ghost function FileOf(key: nat, s: State): Stream {
    Stream(1, 32, key, s.nNew, s.nTried, BUCKETS ^ BUCKET_TAG, Written(s.info, s.next, false), Written(s.info, s.next, true),
           Buckets(Order(s), s.newT, NEW_BUCKET_COUNT))
  }

  lemma {:induction false} WrittenAt(info: InfoMap, n: int, tried: bool)
    ensures |Written(info, n, tried)| == |Listed(info, n, tried)|
    ensures forall i :: 0 <= i < |Listed(info, n, tried)| ==>
                          Listed(info, n, tried)[i] in info && Written(info, n, tried)[i] == Persist(info[Listed(info, n, tried)[i]])
    decreases n
  {
    if n > 0 {
      WrittenAt(info, n - 1, tried);
    }
  }

  lemma {:induction false} ListedGrows(info: InfoMap, n: int, m: int, tried: bool)
    requires n <= m
    ensures Listed(info, n, tried) <= Listed(info, m, tried)
    decreases m - n
  {
    if n < m {
      ListedGrows(info, n, m - 1, tried);
    }
  }

  lemma {:induction false} BucketMembers(order: seq<int>, newT: Table, b: nat, p: nat)
    ensures forall x :: x in BucketList(order, newT, b, p) ==> InBucket(order, newT, b, p, x)
    ensures forall q: nat :: q < p && Slot(b, q) in newT && newT[Slot(b, q)] in order ==>
                               Rename(order, newT[Slot(b, q)]) in BucketList(order, newT, b, p)
  {
    if p > 0 {
      BucketMembers(order, newT, b, p - 1);
      var l, l' := BucketList(order, newT, b, p - 1), BucketList(order, newT, b, p);
      forall x | x in l'
        ensures InBucket(order, newT, b, p, x)
      {
        if x in l {
          assert InBucket(order, newT, b, p - 1, x);
        }
      }
      assert forall x :: x in l ==> x in l';
    }
  }

  ghost predicate InBucket(order: seq<int>, newT: Table, b: nat, p: nat, x: int) {
    exists q: nat :: q < p && Slot(b, q) in newT && newT[Slot(b, q)] in order && x == Rename(order, newT[Slot(b, q)])
  }

  /** Serialize: writes exactly the file of the tables; the asserts on the counters hold. */
  method Serialize(m: AddrMan) returns (s: Stream)
    requires m.Valid()
    ensures s == FileOf(m.nKey, m.Abs())
  {
    hide Inv, TableOf;
    ghost var a := m.Abs();
    var newInfos, mapUnkIds := WriteNew(m);
    var triedInfos := WriteTried(m);
    var buckets: seq<seq<int>> := [];
    for bucket := 0 to NEW_BUCKET_COUNT
      invariant buckets == Buckets(Order(a), a.newT, bucket)
    {
      var l := WriteBucket(m, bucket, mapUnkIds);
      buckets := buckets + [l];
    }
    s := Stream(1, 32, m.nKey, m.nNew, m.nTried, BUCKETS ^ BUCKET_TAG, newInfos, triedInfos, buckets);
  }

  method WriteNew(m: AddrMan) returns (newInfos: seq<Persisted>, mapUnkIds: map<int, int>)
    requires m.Valid()
    ensures newInfos == Written(m.mapInfo, m.nIdCount, false)
    ensures forall id :: id in m.mapInfo && !m.mapInfo[id].inTried ==>
                           id in mapUnkIds && id in Order(m.Abs()) && mapUnkIds[id] == Rename(Order(m.Abs()), id)
  {
    hide RandomOk, AddrOk, NewOk, TriedOk, RefsOk, CountOk, TableOf, Order, Numbering;
    ghost var a := m.Abs();
    OrderOk(a);
    newInfos, mapUnkIds := [], map[];
    NumberingStart(m.mapInfo);
    var nIds := 0;
    var id := 0;
    while id < m.nIdCount
      invariant 0 <= id <= m.nIdCount
      invariant newInfos == Written(m.mapInfo, id, false) && nIds == |newInfos| == |Listed(m.mapInfo, id, false)|
      invariant Numbering(m.mapInfo, id, mapUnkIds)
    {
      ListedGrows(m.mapInfo, id + 1, m.nIdCount, false);
      NumberingStep(m.mapInfo, id, mapUnkIds);
      if id in m.mapInfo {
        mapUnkIds := mapUnkIds[id := nIds];
        ReferencedIffNew(a, id);
        if m.mapInfo[id].refCount != 0 {
          assert nIds != m.nNew;
          newInfos := newInfos + [Persist(m.mapInfo[id])];
          nIds := nIds + 1;
        }
      }
      id := id + 1;
    }
    NumberingDone(a, mapUnkIds);
  }

  lemma ReferencedIffNew(s: State, id: int)
    requires Inv(s, {}) && id in s.info
    ensures s.info[id].refCount != 0 <==> !s.info[id].inTried
  {
    hide RandomOk, AddrOk, NewOk, TriedOk, RefsOk, CountOk;
    CountedRefs(s, {}, id);
    if s.info[id].inTried {
      FromTriedInv(s, {}, id);
    }
  }

  /** The untried ids below n are numbered by their place in the list. */
  ghost predicate Numbering(info: InfoMap, n: int, numbers: map<int, int>) {
    forall id :: 0 <= id < n && id in info && !info[id].inTried ==>
                   id in numbers && 0 <= numbers[id] < |Listed(info, n, false)| && Listed(info, n, false)[numbers[id]] == id
  }

  lemma NumberingStart(info: InfoMap)
    ensures Numbering(info, 0, map[])
  {}

  lemma NumberingStep(info: InfoMap, n: int, numbers: map<int, int>)
    requires 0 <= n && Numbering(info, n, numbers)
    ensures n in info ==> Numbering(info, n + 1, numbers[n := |Listed(info, n, false)|])
    ensures n !in info ==> Numbering(info, n + 1, numbers)
  {}

  lemma NumberingDone(s: State, numbers: map<int, int>)
    requires Inv(s, {}) && Numbering(s.info, s.next, numbers)
    ensures forall id :: id in s.info && !s.info[id].inTried ==>
                           id in numbers && id in Order(s) && numbers[id] == Rename(Order(s), id)
  {
    hide RandomOk, AddrOk, NewOk, TriedOk, RefsOk, CountOk, Rename;
    OrderOk(s);
    forall id | id in s.info && !s.info[id].inTried
      ensures id in numbers && id in Order(s) && numbers[id] == Rename(Order(s), id)
    {
      assert Order(s)[numbers[id]] == id;
      RenameAt(Order(s), numbers[id]);
    }
  }

  method WriteTried(m: AddrMan) returns (triedInfos: seq<Persisted>)
    requires m.Valid()
    ensures triedInfos == Written(m.mapInfo, m.nIdCount, true)
  {
    hide RandomOk, AddrOk, NewOk, TriedOk, RefsOk, CountOk, TableOf;
    OrderOk(m.Abs());
    triedInfos := [];
    var nIds := 0;
    var id := 0;
    while id < m.nIdCount
      invariant 0 <= id <= m.nIdCount
      invariant triedInfos == Written(m.mapInfo, id, true) && nIds == |triedInfos| == |Listed(m.mapInfo, id, true)|
    {
      ListedGrows(m.mapInfo, id + 1, m.nIdCount, true);
      if id in m.mapInfo && m.mapInfo[id].inTried {
        assert nIds != m.nTried;
        triedInfos := triedInfos + [Persist(m.mapInfo[id])];
        nIds := nIds + 1;
      }
      id := id + 1;
    }
  }

  method WriteBucket(m: AddrMan, bucket: nat, mapUnkIds: map<int, int>) returns (l: seq<int>)
    requires m.Valid() && bucket < NEW_BUCKET_COUNT
    requires forall id :: id in m.mapInfo && !m.mapInfo[id].inTried ==>
                            id in mapUnkIds && id in Order(m.Abs()) && mapUnkIds[id] == Rename(Order(m.Abs()), id)
    ensures l == BucketList(Order(m.Abs()), TableOf(m.vvNew), bucket, BUCKET_SIZE)
  {
    hide RandomOk, AddrOk, NewOk, TriedOk, RefsOk, CountOk, TableOf, Inv, Order, Rename;
    l := [];
    for i := 0 to BUCKET_SIZE
      invariant l == BucketList(Order(m.Abs()), TableOf(m.vvNew), bucket, i)
    {
      var at := m.NewAt(Slot(bucket, i));
      if at != -1 {
        Occupant(m.Abs(), {}, Slot(bucket, i));
        l := l + [mapUnkIds[at]];
      }
    }
  }

  // ----- reading it back --------------------------------------------------------------------------------------

  ghost predicate ListedIn(t: State, b: nat, x: int) {
    && 0 <= x < t.nNew && x in t.info
    && var slot := t.h.NewSlotIn(t.info[x].addr.service, b); slot in t.newT && t.newT[slot] == x
  }

  /** A bucket list names the entries of that bucket and no others. */
  ghost predicate BucketOk(t: State, b: nat, l: seq<int>) {
    && (forall x :: x in l ==> ListedIn(t, b, x))
    && (forall slot :: slot in t.newT && slot.bucket == b ==> t.newT[slot] in l)
  }

  ghost predicate EntryOk(s: Stream, i: int, e: Info) {
    && 0 <= i < |s.newInfos| + |s.triedInfos|
    && Restored(e, if i < |s.newInfos| then s.newInfos[i] else s.triedInfos[i - |s.newInfos|], i >= |s.newInfos|)
    && e.randomPos == i
  }

  /** The file describes the tables t, whose entries are numbered in file order. */
  ghost predicate Describes(s: Stream, t: State) {
    && s.version == 1 && s.keySize == 32 && s.nUBuckets == BUCKETS ^ BUCKET_TAG
    && s.nNew == t.nNew == |s.newInfos| && s.nTried == t.nTried == |s.triedInfos| && t.next == t.nNew + t.nTried
    && (forall i :: i in t.info <==> 0 <= i < t.next)
    && (forall i :: i in t.info ==> EntryOk(s, i, t.info[i]))
    && |s.buckets| == NEW_BUCKET_COUNT
    && (forall b: nat :: b < NEW_BUCKET_COUNT ==> BucketOk(t, b, s.buckets[b]))
    && t.rnd == seq(t.next, i => i)
  }

  lemma FileEntries(key: nat, s: State, i: int)
    requires Inv(s, {}) && i in Target(s).info
    ensures EntryOk(FileOf(key, s), i, Target(s).info[i])
  {
    hide RandomOk, AddrOk, NewOk, TriedOk, RefsOk, CountOk, Inv, Buckets;
    OrderOk(s);
    WrittenAt(s.info, s.next, false);
    WrittenAt(s.info, s.next, true);
  }

  lemma FileBuckets(s: State, b: nat)
    requires Inv(s, {}) && b < NEW_BUCKET_COUNT
    ensures BucketOk(Target(s), b, BucketList(Order(s), s.newT, b, BUCKET_SIZE))
  {
    hide RandomOk, AddrOk, NewOk, TriedOk, RefsOk, CountOk, Inv, ListedIn, BucketList;
    OrderOk(s);
    var order, l, t := Order(s), BucketList(Order(s), s.newT, b, BUCKET_SIZE), Target(s);
    BucketMembers(order, s.newT, b, BUCKET_SIZE);
    forall x | x in l
      ensures ListedIn(t, b, x)
    {
      assert InBucket(order, s.newT, b, BUCKET_SIZE, x);
      var q: nat :| q < BUCKET_SIZE && Slot(b, q) in s.newT && s.newT[Slot(b, q)] in order && x == Rename(order, s.newT[Slot(b, q)]);
      SlotListed(s, Slot(b, q));
    }
    forall slot | slot in t.newT && slot.bucket == b
      ensures t.newT[slot] in l
    {
      SlotListed(s, slot);
      assert slot == Slot(b, slot.pos);
    }
  }

  lemma SlotListed(s: State, slot: Slot)
    requires Inv(s, {}) && slot in s.newT
    ensures slot.pos < BUCKET_SIZE && slot in Target(s).newT && s.newT[slot] in Order(s)
    ensures Target(s).newT[slot] == Rename(Order(s), s.newT[slot])
    ensures ListedIn(Target(s), slot.bucket, Target(s).newT[slot])
  {
    hide RandomOk, AddrOk, NewOk, TriedOk, RefsOk, CountOk, Inv;
    OrderOk(s);
    Occupant(s, {}, slot);
    InOrder(s, s.newT[slot]);
    assert Order(s)[Target(s).newT[slot]] == s.newT[slot];
  }

  /** What Serialize writes describes the renumbered tables. */
  lemma FileDescribes(key: nat, s: State)
    requires Inv(s, {})
    ensures Describes(FileOf(key, s), Target(s))
  {
    hide RandomOk, AddrOk, NewOk, TriedOk, RefsOk, CountOk, Inv, BucketList, EntryOk, BucketOk;
    OrderOk(s);
    WrittenAt(s.info, s.next, false);
    WrittenAt(s.info, s.next, true);
    forall i | i in Target(s).info
      ensures EntryOk(FileOf(key, s), i, Target(s).info[i])
    {
      FileEntries(key, s, i);
    }
    forall b: nat | b < NEW_BUCKET_COUNT
      ensures BucketOk(Target(s), b, FileOf(key, s).buckets[b])
    {
      FileBuckets(s, b);
    }
  }

  // ----- the counters are within the limits of the file ----------------------------------------------------------

  ghost function Code(slot: Slot): nat { slot.bucket * BUCKET_SIZE + slot.pos }

  lemma {:induction false} InjectiveBound(m: map<int, nat>, n: nat)
    requires forall x :: x in m ==> m[x] < n
    requires forall x, y :: x in m && y in m && m[x] == m[y] ==> x == y
    ensures |m| <= n
  {
    if n == 0 {
      assert forall x :: x !in m;
    } else if x :| x in m && m[x] == n - 1 {
      InjectiveBound(m - {x}, n - 1);
    } else {
      InjectiveBound(m, n - 1);
    }
  }

  lemma TriedInBounds(h: Hashes, s: Service)
    ensures h.TriedSlot(s).bucket < TRIED_BUCKET_COUNT && h.TriedSlot(s).pos < BUCKET_SIZE
  {}

  lemma WithinLimits(t: State)
    requires Inv(t, {})
    ensures t.nNew <= NEW_BUCKET_COUNT * BUCKET_SIZE && t.nTried <= TRIED_BUCKET_COUNT * BUCKET_SIZE
  {
    hide RandomOk, AddrOk, RefsOk, NewOk, Hashes.TriedSlot;
    forall s
      ensures t.h.TriedSlot(s).pos < BUCKET_SIZE && Code(t.h.TriedSlot(s)) < TRIED_BUCKET_COUNT * BUCKET_SIZE
    {
      TriedInBounds(t.h, s);
    }
    var codes := map id | id in t.info && t.info[id].inTried :: Code(t.h.TriedSlot(t.info[id].addr.service));
    assert codes.Keys == Trieds(t.info);
    forall x, y | x in codes && y in codes && codes[x] == codes[y]
      ensures x == y
    {
      assert InTable(t.h, t.info[x], t.triedT, x) && InTable(t.h, t.info[y], t.triedT, y);
    }
    InjectiveBound(codes, TRIED_BUCKET_COUNT * BUCKET_SIZE);
    NewLimit(t);
  }

  ghost function SomeSlot(t: State, id: int): (slot: Slot)
    requires Inv(t, {}) && id in t.info && !t.info[id].inTried
    ensures slot in t.newT && t.newT[slot] == id && slot.bucket < NEW_BUCKET_COUNT && slot.pos < BUCKET_SIZE
  {
    CountedRefs(t, {}, id);
    var slot :| slot in Refs(t.newT, id);
    Occupant(t, {}, slot);
    slot
  }

  lemma NewLimit(t: State)
    requires Inv(t, {})
    ensures t.nNew <= NEW_BUCKET_COUNT * BUCKET_SIZE
  {
    hide RandomOk, AddrOk, RefsOk, NewOk, TriedOk, SomeSlot;
    var codes := map id | id in t.info && !t.info[id].inTried :: Code(SomeSlot(t, id));
    assert codes.Keys == News(t.info);
    forall x, y | x in codes && y in codes && codes[x] == codes[y]
      ensures x == y
    {
      assert SomeSlot(t, x) == SomeSlot(t, y);
    }
    InjectiveBound(codes, NEW_BUCKET_COUNT * BUCKET_SIZE);
  }

  // ----- reading the entries ----------------------------------------------------------------------------------------

  /** Ids lo up to hi are in use and the random order is sound: true of whatever the file holds. */
  ghost predicate Dense(info: InfoMap, rnd: seq<int>, lo: int, hi: int) {
    lo <= hi && RandomOk(info, rnd) && forall i :: i in info <==> lo <= i < hi
  }

  lemma DenseNone(lo: int)
    ensures Dense(map[], [], lo, lo)
  {}

  lemma DenseNext(info: InfoMap, rnd: seq<int>, lo: int, hi: int, e: Info)
    requires Dense(info, rnd, lo, hi) && e.randomPos == |rnd|
    ensures Dense(info[hi := e], rnd + [hi], lo, hi + 1)
  {
    CreatedRandom(info, rnd, hi, e);
  }

  lemma DenseCount(info: InfoMap, rnd: seq<int>, lo: int, hi: int, id: int, n: int)
    requires Dense(info, rnd, lo, hi) && id in info
    ensures Dense(info[id := info[id].(refCount := n)], rnd, lo, hi)
  {}

  /** The first n entries of t, not yet in the new table. */
  ghost predicate Loaded(t: State, info: InfoMap, addr: map<NetAddr, int>, n: int) {
    && (forall i :: i in info <==> 0 <= i < n)
    && (forall i :: i in info ==> i in t.info && info[i] == t.info[i].(refCount := 0))
    && AddrOk(info, addr)
  }

  lemma SameIp(t: State, i: int, j: int)
    requires Inv(t, {}) && i in t.info && j in t.info && t.info[i].Ip() == t.info[j].Ip()
    ensures i == j
  {
    assert t.addr[t.info[i].Ip()] == i && t.addr[t.info[j].Ip()] == j;
  }

  lemma LoadedNext(t: State, s: Stream, info: InfoMap, addr: map<NetAddr, int>, n: int, e: Info)
    requires Describes(s, t) && Inv(t, {}) && Loaded(t, info, addr, n)
    requires 0 <= n < t.next && e == t.info[n].(refCount := 0)
    ensures Loaded(t, info[n := e], addr[e.Ip() := n], n + 1)
  {
    hide RandomOk, RefsOk, NewOk, TriedOk, CountOk, BucketOk, EntryOk;
    AddrKnown(info, addr, e.Ip());
    if e.Ip() in addr {
      SameIp(t, addr[e.Ip()], n);
    }
    CreatedAddr(info, addr, n, e);
  }

  lemma EntryKnown(info: InfoMap, addr: map<NetAddr, int>, id: int)
    requires AddrOk(info, addr) && id in info
    ensures info[id].Ip() in addr && addr[info[id].Ip()] == id
  {}

  /** The address index is determined by the entries. */
  lemma AddrUnique(info: InfoMap, addr: map<NetAddr, int>, info': InfoMap, addr': map<NetAddr, int>)
    requires AddrOk(info, addr) && AddrOk(info', addr')
    requires info.Keys == info'.Keys && forall i :: i in info ==> info[i].Ip() == info'[i].Ip()
    ensures addr == addr'
  {
    forall ip
      ensures ip in addr <==> ip in addr'
      ensures ip in addr ==> addr[ip] == addr'[ip]
    {
      AddrKnown(info, addr, ip);
      AddrKnown(info', addr', ip);
      if ip in addr {
        EntryKnown(info', addr', addr[ip]);
      }
      if ip in addr' {
        EntryKnown(info, addr, addr'[ip]);
      }
    }
  }

  lemma LoadedAll(t: State, s: Stream, info: InfoMap, addr: map<NetAddr, int>, rnd: seq<int>)
    requires Describes(s, t) && Inv(t, {}) && Loaded(t, info, addr, t.next) && Dense(info, rnd, 0, t.next)
    ensures addr == t.addr && rnd == t.rnd
  {
    hide RefsOk, NewOk, TriedOk, CountOk, BucketOk, AddrOk;
    assert forall i :: i in info.Keys <==> i in t.info.Keys;
    AddrUnique(info, addr, t.info, t.addr);
    DenseSize(info, rnd, t.next);
    forall i | 0 <= i < |rnd|
      ensures rnd[i] == i
    {
      assert EntryOk(s, rnd[i], t.info[rnd[i]]);
    }
  }

  function Low(nNew: int): int { if nNew < 0 then nNew else 0 }

  /** Whatever the file holds: the tables and counts are right, and untried entries have the ids below n. */
  ghost predicate SoundSplit(m: AddrMan, n: int)
    reads m`mapInfo, m`mapAddr, m`nKey, m.vvNew, m.vvTried
  {
    && Sound(m.keyed(m.nKey), m.mapInfo, TableOf(m.vvNew), TableOf(m.vvTried)) && LastWins(m.mapInfo, m.mapAddr)
    && (forall id :: id in m.mapInfo ==> (m.mapInfo[id].inTried <==> n <= id))
  }

  method LoadNew(m: AddrMan, s: Stream, nUBuckets: int, ghost t: State, ghost good: bool) returns (ok: bool)
    requires m.Shape() && m.mapInfo == map[] && m.mapAddr == map[] && m.vRandom == []
    requires good ==> Describes(s, t) && Inv(t, {}) && nUBuckets == NEW_BUCKET_COUNT && m.nNew == t.nNew
    requires TableOf(m.vvNew) == map[] && TableOf(m.vvTried) == map[] && nUBuckets == BucketsOf(s)
    modifies m`mapInfo, m`mapAddr, m`vRandom, m.vvNew
    ensures m.Shape() && TableOf(m.vvTried) == old(TableOf(m.vvTried))
    ensures ok <==> m.nNew <= |s.newInfos|
    ensures ok ==> Dense(m.mapInfo, m.vRandom, Low(m.nNew), m.nNew)
    ensures ok && m.nNew >= 0 ==> SoundSplit(m, m.nNew) && OfFile(s, m.mapInfo, m.nNew, [])
    ensures ok ==> TableOf(m.vvNew) == if UsesBuckets(s) then map[] else SourceTable(s, m.keyed(m.nKey), Max(0, m.nNew))
    ensures good ==> ok && Loaded(t, m.mapInfo, m.mapAddr, t.nNew) && TableOf(m.vvNew) == old(TableOf(m.vvNew))
  {
    hide Inv, TableOf, Loaded, RandomOk, BucketOk, SoundSplit, SourceStep, UsesBuckets, BucketsOf, OfFile, Dense;
    LoadedNone(t);
    OfFileNone(s);
    SplitNone(m);
    DenseNone(m.nNew);
    DenseNone(0);
    if m.nNew < 0 {
      return true;
    }
    var n := 0;
    while n < m.nNew
      invariant 0 <= n <= m.nNew && Dense(m.mapInfo, m.vRandom, 0, n)
      invariant m.Shape() && TableOf(m.vvTried) == old(TableOf(m.vvTried))
      invariant good ==> Loaded(t, m.mapInfo, m.mapAddr, n) && TableOf(m.vvNew) == old(TableOf(m.vvNew))
      invariant SoundSplit(m, m.nNew) && n <= |s.newInfos|
      invariant OfFile(s, m.mapInfo, n, [])
      invariant TableOf(m.vvNew) == if UsesBuckets(s) then map[] else SourceTable(s, m.keyed(m.nKey), n)
      modifies m`mapInfo, m`mapAddr, m`vRandom, m.vvNew
    {
      if n >= |s.newInfos| {
        return false;
      }
      if good {
        DenseSize(m.mapInfo, m.vRandom, n);
        assert EntryOk(s, n, t.info[n]);
        LoadedNext(t, s, m.mapInfo, m.mapAddr, n, Restore(s.newInfos[n]).(randomPos := |m.vRandom|));
      }
      SourceNext(s, m.keyed(m.nKey), n);
      ghost var before := m.mapInfo;
      LoadOneNew(m, s, s.version != 1 || nUBuckets != NEW_BUCKET_COUNT, n);
      OfFileNew(s, before, m.mapInfo, n);
      assert (s.version != 1 || nUBuckets != NEW_BUCKET_COUNT) == !UsesBuckets(s) by { BucketsUsed(s); }
      n := n + 1;
    }
    return true;
  }

  /** One untried entry; if the buckets of the file cannot be used, it gets a reference by its source right away. */
  method LoadOneNew(m: AddrMan, s: Stream, reference: bool, n: nat)
    requires m.Shape() && Dense(m.mapInfo, m.vRandom, 0, n) && SoundSplit(m, m.nNew) && n < m.nNew && n < |s.newInfos|
    modifies m`mapInfo, m`mapAddr, m`vRandom, m.vvNew
    ensures m.Shape() && Dense(m.mapInfo, m.vRandom, 0, n + 1) && SoundSplit(m, m.nNew) && TableOf(m.vvTried) == old(TableOf(m.vvTried))
    ensures m.mapInfo.Keys == old(m.mapInfo).Keys + {n} && Restored(m.mapInfo[n], s.newInfos[n], false)
    ensures forall id :: id in old(m.mapInfo) ==> m.mapInfo[id] == old(m.mapInfo)[id]
    ensures TableOf(m.vvNew) == if reference then SourceStep(s, m.keyed(m.nKey), old(TableOf(m.vvNew)), n) else old(TableOf(m.vvNew))
    ensures m.mapAddr == old(m.mapAddr)[s.newInfos[n].addr.service.ip := n]
    ensures !reference ==> m.mapInfo == old(m.mapInfo)[n := Restore(s.newInfos[n]).(randomPos := old(|m.vRandom|))]
  {
    hide TableOf, RandomOk, Sound, LastWins;
    ghost var h := m.keyed(m.nKey);
    var info := Restore(s.newInfos[n]).(randomPos := |m.vRandom|);
    DenseNext(m.mapInfo, m.vRandom, 0, n, info);
    SoundNew(h, m.mapInfo, TableOf(m.vvNew), TableOf(m.vvTried), n, info);
    LastWinsNext(m.mapInfo, m.mapAddr, n, info);
    m.mapInfo := m.mapInfo[n := info];
    m.mapAddr := m.mapAddr[info.Ip() := n];
    m.vRandom := m.vRandom + [n];
    if reference {
      var slot := m.keyed(m.nKey).NewSlot(info.addr.service, info.source);
      var at := m.NewAt(slot);
      if at == -1 {
        DenseCount(m.mapInfo, m.vRandom, 0, n + 1, n, info.refCount + 1);
        SoundRef(h, m.mapInfo, TableOf(m.vvNew), TableOf(m.vvTried), slot, n);
        LastWinsCount(m.mapInfo, m.mapAddr, n, info.refCount + 1);
        m.PutNew(slot, n);
        m.mapInfo := m.mapInfo[n := m.mapInfo[n].(refCount := info.refCount + 1)];
      }
    }
  }

  lemma LoadedNone(t: State)
    ensures Loaded(t, map[], map[], 0)
  {}

  lemma {:induction false} DenseSize(info: InfoMap, rnd: seq<int>, n: nat)
    requires Dense(info, rnd, 0, n)
    ensures |rnd| == n
  {
    var place := map i | i in info :: info[i].randomPos;
    assert place.Keys == info.Keys;
    RangeSize(info.Keys, 0, n);
    InjectiveBound(place, |rnd|);
    var back := map k: int | 0 <= k < |rnd| :: rnd[k];
    RangeSize(back.Keys, 0, |rnd|);
    InjectiveBound(back, n);
  }

  /** The tried table holds exactly the entries of t read so far. */
  ghost predicate TriedUpTo(t: State, triedT: Table, n: int) {
    forall slot :: slot in triedT <==> slot in t.triedT && t.triedT[slot] < n
  }

  ghost predicate Agrees(a: Table, b: Table) {
    forall slot :: slot in a ==> slot in b && a[slot] == b[slot]
  }

  lemma TriedNext(t: State, triedT: Table, n: int)
    requires Inv(t, {}) && n in t.info && t.info[n].inTried && TriedUpTo(t, triedT, n) && Agrees(triedT, t.triedT)
    ensures var slot := t.h.TriedSlot(t.info[n].addr.service);
            slot !in triedT && TriedUpTo(t, triedT[slot := n], n + 1) && Agrees(triedT[slot := n], t.triedT)
  {
    hide RandomOk, AddrOk, NewOk, RefsOk, CountOk;
    var slot := t.h.TriedSlot(t.info[n].addr.service);
    assert InTable(t.h, t.info[n], t.triedT, n);
    forall x | x in t.triedT && t.triedT[x] == n
      ensures x == slot
    {
      assert TriedSlotOk(t.h, t.info, x, n);
    }
  }

  method LoadTried(m: AddrMan, s: Stream, ghost t: State, ghost good: bool) returns (ok: bool, nLost: int)
    requires m.Shape() && Dense(m.mapInfo, m.vRandom, Low(m.nNew), m.nIdCount) && m.nIdCount == m.nNew
    requires good ==> Describes(s, t) && Inv(t, {}) && m.keyed(m.nKey) == t.h && m.nNew == t.nNew && m.nTried == t.nTried
    requires good ==> Loaded(t, m.mapInfo, m.mapAddr, t.nNew) && TableOf(m.vvTried) == map[]
    requires m.nNew >= 0 ==> SoundSplit(m, m.nNew) && OfFile(s, m.mapInfo, m.nNew, []) && TableOf(m.vvTried) == map[]
    modifies m`mapInfo, m`mapAddr, m`vRandom, m`nIdCount, m.vvTried
    ensures m.Shape() && TableOf(m.vvNew) == old(TableOf(m.vvNew))
    ensures ok <==> m.nTried <= |s.triedInfos|
    ensures ok && m.nNew >= 0 ==> SoundSplit(m, m.nNew) && OfFile(s, m.mapInfo, m.nNew, Kept(s, m.keyed(m.nKey), Max(0, m.nTried)))
    ensures nLost >= 0 && (ok ==> m.nIdCount - m.nNew + nLost == Max(0, m.nTried))
    ensures Dense(m.mapInfo, m.vRandom, Low(m.nNew), m.nIdCount) && m.nNew <= m.nIdCount
    ensures good ==> ok && nLost == 0 && m.nIdCount == t.next && Loaded(t, m.mapInfo, m.mapAddr, t.next)
    ensures good ==> TableOf(m.vvTried) == t.triedT
  {
    hide Inv, TableOf, Loaded, RandomOk, TriedUpTo, Agrees, BucketOk, SoundSplit, OfFile, TriedTaken, Kept;
    if good {
      TriedNone(t, s);
    }
    if m.nNew >= 0 {
      NoneTaken(s, m.keyed(m.nKey));
    }
    ok, nLost := true, 0;
    var n := 0;
    while n < m.nTried
      invariant 0 <= n <= Max(0, m.nTried) && n <= |s.triedInfos| && (good ==> n <= t.nTried) && nLost >= 0 && m.nIdCount - m.nNew + nLost == n
      invariant m.nNew >= 0 ==> SoundSplit(m, m.nNew) && OfFile(s, m.mapInfo, m.nNew, Kept(s, m.keyed(m.nKey), n))
      invariant m.nNew >= 0 ==> TriedTaken(s, m.keyed(m.nKey), TableOf(m.vvTried), n)
      invariant m.Shape() && TableOf(m.vvNew) == old(TableOf(m.vvNew))
      invariant Dense(m.mapInfo, m.vRandom, Low(m.nNew), m.nIdCount) && m.nNew <= m.nIdCount
      invariant good ==> nLost == 0 && m.nIdCount == t.nNew + n && Loaded(t, m.mapInfo, m.mapAddr, m.nIdCount)
      invariant good ==> TriedUpTo(t, TableOf(m.vvTried), m.nIdCount) && Agrees(TableOf(m.vvTried), t.triedT)
      modifies m`mapInfo, m`mapAddr, m`vRandom, m`nIdCount, m.vvTried
    {
      if n >= |s.triedInfos| {
        return false, nLost;
      }
      if good {
        DenseSize(m.mapInfo, m.vRandom, m.nIdCount);
        assert EntryOk(s, m.nIdCount, t.info[m.nIdCount]);
        LoadedNext(t, s, m.mapInfo, m.mapAddr, m.nIdCount, Restore(s.triedInfos[n]).(randomPos := |m.vRandom|, inTried := true));
        TriedNext(t, TableOf(m.vvTried), m.nIdCount);
      }
      var lost := LoadOneTried(m, s, n);
      if lost {
        nLost := nLost + 1;
      }
      n := n + 1;
    }
    if good {
      TriedAll(t, s, TableOf(m.vvTried));
    }
  }

  /** One tried entry, unless its slot is taken. */
  method LoadOneTried(m: AddrMan, s: Stream, n: nat) returns (lost: bool)
    requires m.Shape() && Dense(m.mapInfo, m.vRandom, Low(m.nNew), m.nIdCount) && m.nNew <= m.nIdCount && n < |s.triedInfos|
    requires m.nNew >= 0 ==> SoundSplit(m, m.nNew) && OfFile(s, m.mapInfo, m.nNew, Kept(s, m.keyed(m.nKey), n))
    requires m.nNew >= 0 ==> TriedTaken(s, m.keyed(m.nKey), TableOf(m.vvTried), n)
    modifies m`mapInfo, m`mapAddr, m`vRandom, m`nIdCount, m.vvTried
    ensures m.Shape() && Dense(m.mapInfo, m.vRandom, Low(m.nNew), m.nIdCount) && TableOf(m.vvNew) == old(TableOf(m.vvNew))
    ensures m.nNew >= 0 ==> SoundSplit(m, m.nNew) && OfFile(s, m.mapInfo, m.nNew, Kept(s, m.keyed(m.nKey), n + 1))
    ensures m.nNew >= 0 ==> TriedTaken(s, m.keyed(m.nKey), TableOf(m.vvTried), n + 1)
    ensures m.nIdCount == old(m.nIdCount) + if lost then 0 else 1
    ensures var e := Restore(s.triedInfos[n]).(randomPos := old(|m.vRandom|), inTried := true);
            var slot := m.keyed(m.nKey).TriedSlot(e.addr.service);
            && (lost <==> slot in old(TableOf(m.vvTried)))
            && (!lost && old(m.nIdCount) != -1 ==> TableOf(m.vvTried) == old(TableOf(m.vvTried))[slot := old(m.nIdCount)])
            && (!lost ==> m.mapInfo == old(m.mapInfo)[old(m.nIdCount) := e] && m.mapAddr == old(m.mapAddr)[e.Ip() := old(m.nIdCount)])
  {
    hide TableOf, RandomOk, Sound, LastWins, OfFile, TriedTaken, SlotFree, Kept;
    if m.nNew >= 0 {
      TakenNext(s, m.keyed(m.nKey), TableOf(m.vvTried), n, m.nIdCount);
      KeptNext(s, m.keyed(m.nKey), n);
    }
    var info := Restore(s.triedInfos[n]);
    var slot := m.keyed(m.nKey).TriedSlot(info.addr.service);
    var at := m.TriedAt(slot);
    lost := at != -1;
    if !lost {
      info := info.(randomPos := |m.vRandom|, inTried := true);
      DenseNext(m.mapInfo, m.vRandom, Low(m.nNew), m.nIdCount, info);
      if m.nNew >= 0 {
        SplitTried(m, info);
        OfFileNext(s, m.mapInfo, m.nNew, Kept(s, m.keyed(m.nKey), n), m.nIdCount, info, n);
      }
      m.vRandom := m.vRandom + [m.nIdCount];
      m.mapInfo := m.mapInfo[m.nIdCount := info];
      m.mapAddr := m.mapAddr[info.Ip() := m.nIdCount];
      m.PutTried(slot, m.nIdCount);
      m.nIdCount := m.nIdCount + 1;
    }
  }

  /** One more tried entry. */
  lemma SplitTried(m: AddrMan, e: Info)
    requires SoundSplit(m, m.nNew) && m.nIdCount !in m.mapInfo && m.nNew <= m.nIdCount && e.inTried && e.refCount == 0
    requires m.keyed(m.nKey).TriedSlot(e.addr.service) !in TableOf(m.vvTried)
    ensures var slot := m.keyed(m.nKey).TriedSlot(e.addr.service);
            var info := m.mapInfo[m.nIdCount := e];
            && Sound(m.keyed(m.nKey), info, TableOf(m.vvNew), TableOf(m.vvTried)[slot := m.nIdCount])
            && LastWins(info, m.mapAddr[e.Ip() := m.nIdCount])
            && (forall id :: id in info ==> (info[id].inTried <==> m.nNew <= id))
  {
    hide Sound, LastWins, TableOf;
    SoundTried(m.keyed(m.nKey), m.mapInfo, TableOf(m.vvNew), TableOf(m.vvTried), m.nIdCount, e);
    LastWinsNext(m.mapInfo, m.mapAddr, m.nIdCount, e);
  }

  lemma TriedNone(t: State, s: Stream)
    requires Inv(t, {}) && Describes(s, t)
    ensures TriedUpTo(t, map[], t.nNew) && Agrees(map[], t.triedT)
  {
    hide RandomOk, AddrOk, NewOk, RefsOk, CountOk, BucketOk;
    forall slot | slot in t.triedT
      ensures t.triedT[slot] >= t.nNew
    {
      assert TriedSlotOk(t.h, t.info, slot, t.triedT[slot]);
      assert EntryOk(s, t.triedT[slot], t.info[t.triedT[slot]]);
    }
  }

  lemma TriedAll(t: State, s: Stream, triedT: Table)
    requires Inv(t, {}) && Describes(s, t) && TriedUpTo(t, triedT, t.next) && Agrees(triedT, t.triedT)
    ensures triedT == t.triedT
  {
    hide RandomOk, AddrOk, NewOk, RefsOk, CountOk, BucketOk, EntryOk;
    forall slot | slot in t.triedT
      ensures t.triedT[slot] < t.next
    {
      assert TriedSlotOk(t.h, t.info, slot, t.triedT[slot]);
    }
  }

  // ----- reading the new table ---------------------------------------------------------------------------------------

  /** All entries are there; part of the new table is, and the counts count it. */
  ghost predicate Placed(t: State, info: InfoMap, newT: Table) {
    && Agrees(newT, t.newT) && (forall i :: i in info <==> i in t.info)
    && (forall i :: i in info && i in t.info ==> info[i] == t.info[i].(refCount := |Refs(newT, i)|))
  }

  lemma PlacedNone(t: State, info: InfoMap, addr: map<NetAddr, int>)
    requires Loaded(t, info, addr, t.next) && forall i :: i in t.info <==> 0 <= i < t.next
    ensures Placed(t, info, map[])
  {
    forall i | i in info
      ensures info[i] == t.info[i].(refCount := |Refs(map[], i)|)
    {
      assert Refs(map[], i) == {};
    }
  }

  /** A listed entry whose slot is still empty has room for one more reference. */
  lemma PlacedNext(t: State, info: InfoMap, newT: Table, b: nat, x: int)
    requires Inv(t, {}) && Placed(t, info, newT) && ListedIn(t, b, x)
    ensures x in info && info[x].addr.service == t.info[x].addr.service
    ensures var slot := t.h.NewSlotIn(t.info[x].addr.service, b);
            slot !in newT ==>
              && info[x].refCount < NEW_BUCKETS_PER_ADDRESS
              && Placed(t, info[x := info[x].(refCount := info[x].refCount + 1)], newT[slot := x])
  {
    hide RandomOk, AddrOk, NewOk, TriedOk, RefsOk, CountOk;
    var slot := t.h.NewSlotIn(t.info[x].addr.service, b);
    if slot !in newT {
      var newT' := newT[slot := x];
      CountedRefs(t, {}, x);
      ProperPart(Refs(newT, x), Refs(t.newT, x), slot);
      assert Refs(newT', x) == Refs(newT, x) + {slot};
      forall i | i in info && i != x
        ensures Refs(newT', i) == Refs(newT, i)
      {}
    }
  }

  lemma {:induction false} ProperPart(a: set<Slot>, b: set<Slot>, x: Slot)
    requires a <= b && x in b && x !in a
    ensures |a| < |b|
    decreases a
  {
    if a == {} {
      assert x in b;
    } else {
      var y :| y in a;
      ProperPart(a - {y}, b - {y}, x);
    }
  }

  /** The untried entries of the file are loaded. */
  ghost predicate NewLoaded(s: Stream, info: InfoMap, nNew: int) {
    nNew == s.nNew <= |s.newInfos| && forall i :: 0 <= i < nNew ==> i in info && info[i].addr == s.newInfos[i].addr
  }

  /** One index of a bucket list. */
  method PlaceOne(m: AddrMan, s: Stream, nUBuckets: int, bucket: nat, nIndex: int, ghost t: State, ghost good: bool)
    requires m.Shape() && Dense(m.mapInfo, m.vRandom, Low(m.nNew), m.nIdCount) && m.nNew <= m.nIdCount && bucket < nUBuckets
    requires good ==> Inv(t, {}) && m.keyed(m.nKey) == t.h && m.nNew == t.nNew && s.version == 1 && nUBuckets == NEW_BUCKET_COUNT
    requires good ==> Placed(t, m.mapInfo, TableOf(m.vvNew)) && ListedIn(t, bucket, nIndex)
    requires s.nNew <= |s.newInfos| && NewLoaded(s, m.mapInfo, m.nNew) && nUBuckets == BucketsOf(s) && (m.nNew >= 0 ==> SoundSplit(m, m.nNew))
    modifies m`mapInfo, m.vvNew
    ensures m.Shape() && Dense(m.mapInfo, m.vRandom, Low(m.nNew), m.nIdCount) && TableOf(m.vvTried) == old(TableOf(m.vvTried))
    ensures (m.nNew >= 0 ==> SoundSplit(m, m.nNew)) && SameButCounts(old(m.mapInfo), m.mapInfo) && NewLoaded(s, m.mapInfo, m.nNew)
    ensures TableOf(m.vvNew) == if UsesBuckets(s) then ListStep(s, m.keyed(m.nKey), old(TableOf(m.vvNew)), bucket, nIndex)
                                else old(TableOf(m.vvNew))
    ensures good ==> Placed(t, m.mapInfo, TableOf(m.vvNew)) && Agrees(old(TableOf(m.vvNew)), TableOf(m.vvNew))
    ensures good ==> t.h.NewSlotIn(t.info[nIndex].addr.service, bucket) in TableOf(m.vvNew)
  {
    hide Inv, TableOf, RandomOk, Placed, Sound, LastWins, ListStep, SameButCounts, NewLoaded, UsesBuckets, BucketsOf, Dense;
    BucketsUsed(s);
    ListNext(s, m.keyed(m.nKey), TableOf(m.vvNew), bucket, nIndex);
    LoadedAt(s, m.mapInfo, m.nNew, nIndex);
    SameCountsAll(m.mapInfo);
    if good {
      PlacedNext(t, m.mapInfo, TableOf(m.vvNew), bucket, nIndex);
    }
    if 0 <= nIndex < m.nNew {
      var info := m.mapInfo[nIndex];
      var slot := m.keyed(m.nKey).NewSlotIn(info.addr.service, bucket);
      CountRefs(m.keyed(m.nKey), m.mapInfo, TableOf(m.vvNew), TableOf(m.vvTried), nIndex);
      if s.version == 1 && nUBuckets == NEW_BUCKET_COUNT {
        var at := m.NewAt(slot);
        if at == -1 && info.refCount < NEW_BUCKETS_PER_ADDRESS {
          DenseCount(m.mapInfo, m.vRandom, Low(m.nNew), m.nIdCount, nIndex, info.refCount + 1);
          SoundRef(m.keyed(m.nKey), m.mapInfo, TableOf(m.vvNew), TableOf(m.vvTried), slot, nIndex);
          LastWinsCount(m.mapInfo, m.mapAddr, nIndex, info.refCount + 1);
          CountChanged(s, m.mapInfo, m.nNew, nIndex, info.refCount + 1);
          m.mapInfo := m.mapInfo[nIndex := info.(refCount := info.refCount + 1)];
          m.PutNew(slot, nIndex);
        }
      }
    }
  }

  method LoadBucket(m: AddrMan, s: Stream, nUBuckets: int, bucket: nat, l: seq<int>, ghost t: State, ghost good: bool)
    requires m.Shape() && Dense(m.mapInfo, m.vRandom, Low(m.nNew), m.nIdCount) && m.nNew <= m.nIdCount && bucket < nUBuckets
    requires good ==> Inv(t, {}) && m.keyed(m.nKey) == t.h && m.nNew == t.nNew && s.version == 1 && nUBuckets == NEW_BUCKET_COUNT
    requires good ==> Placed(t, m.mapInfo, TableOf(m.vvNew)) && BucketOk(t, bucket, l)
    requires s.nNew <= |s.newInfos| && NewLoaded(s, m.mapInfo, m.nNew) && nUBuckets == BucketsOf(s) && (m.nNew >= 0 ==> SoundSplit(m, m.nNew))
    modifies m`mapInfo, m.vvNew
    ensures m.Shape() && Dense(m.mapInfo, m.vRandom, Low(m.nNew), m.nIdCount) && TableOf(m.vvTried) == old(TableOf(m.vvTried))
    ensures (m.nNew >= 0 ==> SoundSplit(m, m.nNew)) && SameButCounts(old(m.mapInfo), m.mapInfo) && NewLoaded(s, m.mapInfo, m.nNew)
    ensures TableOf(m.vvNew) == if UsesBuckets(s) then ListTable(s, m.keyed(m.nKey), old(TableOf(m.vvNew)), bucket, l, |l|)
                                else old(TableOf(m.vvNew))
    ensures good ==> Placed(t, m.mapInfo, TableOf(m.vvNew)) && Agrees(old(TableOf(m.vvNew)), TableOf(m.vvNew))
    ensures good ==> forall slot :: slot in t.newT && slot.bucket == bucket ==> slot in TableOf(m.vvNew)
  {
    hide Inv, TableOf, RandomOk, Placed, Dense, SoundSplit, NewLoaded, SameButCounts, ListStep, UsesBuckets, BucketsOf;
    SameCountsAll(m.mapInfo);
    for n := 0 to |l|
      invariant TableOf(m.vvNew) == if UsesBuckets(s) then ListTable(s, m.keyed(m.nKey), old(TableOf(m.vvNew)), bucket, l, n)
                                    else old(TableOf(m.vvNew))
      invariant m.Shape() && Dense(m.mapInfo, m.vRandom, Low(m.nNew), m.nIdCount)
      invariant (m.nNew >= 0 ==> SoundSplit(m, m.nNew)) && SameButCounts(old(m.mapInfo), m.mapInfo) && NewLoaded(s, m.mapInfo, m.nNew)
      invariant TableOf(m.vvTried) == old(TableOf(m.vvTried))
      invariant good ==> Placed(t, m.mapInfo, TableOf(m.vvNew)) && Agrees(old(TableOf(m.vvNew)), TableOf(m.vvNew))
      invariant good ==> forall k :: 0 <= k < n ==> HasSlot(t, TableOf(m.vvNew), bucket, l[k])
    {
      assert good ==> ListedIn(t, bucket, l[n]);
      ghost var before := m.mapInfo;
      PlaceOne(m, s, nUBuckets, bucket, l[n], t, good);
      SameCountsBoth(old(m.mapInfo), before, m.mapInfo);
    }
    if good {
      BucketDone(t, TableOf(m.vvNew), bucket, l);
    }
  }

  ghost predicate HasSlot(t: State, newT: Table, b: nat, x: int) {
    x in t.info && t.h.NewSlotIn(t.info[x].addr.service, b) in newT
  }

  lemma BucketDone(t: State, newT: Table, b: nat, l: seq<int>)
    requires Inv(t, {}) && BucketOk(t, b, l) && forall k :: 0 <= k < |l| ==> HasSlot(t, newT, b, l[k])
    ensures forall slot :: slot in t.newT && slot.bucket == b ==> slot in newT
  {
    hide Inv;
    forall slot | slot in t.newT && slot.bucket == b
      ensures slot in newT
    {
      assert t.newT[slot] in l;
      var k :| 0 <= k < |l| && l[k] == t.newT[slot];
      assert HasSlot(t, newT, b, l[k]);
      Occupant(t, {}, slot);
    }
  }

  method LoadBuckets(m: AddrMan, s: Stream, nUBuckets: int, ghost t: State, ghost good: bool) returns (ok: bool)
    requires m.Shape() && Dense(m.mapInfo, m.vRandom, Low(m.nNew), m.nIdCount) && m.nNew <= m.nIdCount
    requires good ==> Inv(t, {}) && Describes(s, t) && m.keyed(m.nKey) == t.h && m.nNew == t.nNew && nUBuckets == NEW_BUCKET_COUNT
    requires good ==> Placed(t, m.mapInfo, TableOf(m.vvNew))
    requires s.nNew <= |s.newInfos| && NewLoaded(s, m.mapInfo, m.nNew) && nUBuckets == BucketsOf(s) && (m.nNew >= 0 ==> SoundSplit(m, m.nNew))
    requires UsesBuckets(s) ==> TableOf(m.vvNew) == map[]
    modifies m`mapInfo, m.vvNew
    ensures m.Shape() && Dense(m.mapInfo, m.vRandom, Low(m.nNew), m.nIdCount) && TableOf(m.vvTried) == old(TableOf(m.vvTried))
    ensures (m.nNew >= 0 ==> SoundSplit(m, m.nNew)) && SameButCounts(old(m.mapInfo), m.mapInfo) && NewLoaded(s, m.mapInfo, m.nNew)
    ensures ok <==> nUBuckets <= |s.buckets|
    ensures ok ==> TableOf(m.vvNew) == if UsesBuckets(s) then BucketTable(s, m.keyed(m.nKey), NEW_BUCKET_COUNT) else old(TableOf(m.vvNew))
    ensures good ==> ok && m.mapInfo == t.info && TableOf(m.vvNew) == t.newT
  {
    hide Inv, TableOf, RandomOk, Placed, Dense, BucketOk, EntryOk, SoundSplit, NewLoaded, SameButCounts, ListTable, UsesBuckets, BucketsOf;
    BucketsUsed(s);
    SameCountsAll(m.mapInfo);
    var bucket := 0;
    while bucket < nUBuckets
      invariant 0 <= bucket <= |s.buckets| && bucket <= Max(0, nUBuckets)
      invariant TableOf(m.vvNew) == if UsesBuckets(s) then BucketTable(s, m.keyed(m.nKey), bucket) else old(TableOf(m.vvNew))
      invariant m.Shape() && Dense(m.mapInfo, m.vRandom, Low(m.nNew), m.nIdCount)
      invariant (m.nNew >= 0 ==> SoundSplit(m, m.nNew)) && SameButCounts(old(m.mapInfo), m.mapInfo) && NewLoaded(s, m.mapInfo, m.nNew)
      invariant TableOf(m.vvTried) == old(TableOf(m.vvTried))
      invariant good ==> Placed(t, m.mapInfo, TableOf(m.vvNew))
      invariant good ==> forall slot :: slot in t.newT && slot.bucket < bucket ==> slot in TableOf(m.vvNew)
      modifies m`mapInfo, m.vvNew
    {
      if bucket >= |s.buckets| {
        return false;
      }
      ghost var before := m.mapInfo;
      LoadBucket(m, s, nUBuckets, bucket, s.buckets[bucket], t, good);
      SameCountsBoth(old(m.mapInfo), before, m.mapInfo);
      bucket := bucket + 1;
    }
    if good {
      PlacedAll(t, m.mapInfo, TableOf(m.vvNew));
    }
    return true;
  }

  lemma PlacedAll(t: State, info: InfoMap, newT: Table)
    requires Inv(t, {}) && Placed(t, info, newT)
    requires forall slot :: slot in t.newT && slot.bucket < NEW_BUCKET_COUNT ==> slot in newT
    ensures info == t.info && newT == t.newT
  {
    hide Inv;
    forall slot | slot in t.newT
      ensures slot in newT
    {
      Occupant(t, {}, slot);
    }
    assert newT == t.newT;
    forall i | i in info
      ensures info[i] == t.info[i]
    {
      CountedRefs(t, {}, i);
    }
    assert forall i :: i in info.Keys <==> i in t.info.Keys;
  }

  lemma BucketsUsed(s: Stream)
    ensures UsesBuckets(s) <==> s.version == 1 && BucketsOf(s) == NEW_BUCKET_COUNT
  {}

  lemma LoadedAt(s: Stream, info: InfoMap, nNew: int, i: int)
    requires NewLoaded(s, info, nNew)
    ensures nNew == s.nNew && (0 <= i < nNew ==> i in info && info[i].addr == s.newInfos[i].addr)
  {}

  lemma CountChanged(s: Stream, info: InfoMap, nNew: int, id: int, n: int)
    requires NewLoaded(s, info, nNew) && id in info
    ensures NewLoaded(s, info[id := info[id].(refCount := n)], nNew) && SameButCounts(info, info[id := info[id].(refCount := n)])
  {}

  lemma SplitNone(m: AddrMan)
    requires m.mapInfo == map[] && m.mapAddr == map[] && TableOf(m.vvNew) == map[] && TableOf(m.vvTried) == map[]
    ensures SoundSplit(m, m.nNew)
  {
    SoundNone(m.keyed(m.nKey));
  }

  lemma SameCountsAll(info: InfoMap)
    ensures SameButCounts(info, info)
  {}

  lemma SameCountsBoth(info: InfoMap, info1: InfoMap, info2: InfoMap)
    requires SameButCounts(info, info1) && SameButCounts(info1, info2)
    ensures SameButCounts(info, info2)
  {}

  lemma CountRefs(h: Hashes, info: InfoMap, newT: Table, triedT: Table, id: int)
    requires Sound(h, info, newT, triedT) && id in info
    ensures info[id].refCount == |Refs(newT, id)|
  {
    assert RefOk(info[id], newT, id, id in info.Keys);
  }

  /** Prune untried entries without a reference. */
  method Prune(m: AddrMan) returns (nLostUnk: int)
    requires Dense(m.mapInfo, m.vRandom, Low(m.nNew), m.nIdCount) && m.nNew <= m.nIdCount && (m.nNew >= 0 ==> SoundSplit(m, m.nNew))
    modifies m`mapInfo, m`mapAddr, m`vRandom, m`nNew
    ensures RandomOk(m.mapInfo, m.vRandom) && m.nNew == old(m.nNew) - nLostUnk && nLostUnk >= 0
    ensures Pruned(old(m.mapInfo), old(m.mapAddr), m.mapInfo, m.mapAddr)
    ensures old(m.nNew) >= 0 ==> StillSound(m) && CountOk(m.mapInfo, m.nNew, m.nIdCount - old(m.nNew))
    ensures forall id :: id in m.mapInfo <==> id in old(m.mapInfo) && (old(m.mapInfo)[id].inTried || old(m.mapInfo)[id].refCount != 0)
    ensures forall id :: id in m.mapInfo ==> m.mapInfo[id] == old(m.mapInfo)[id].(randomPos := m.mapInfo[id].randomPos)
    ensures (forall id :: id in old(m.mapInfo) ==> old(m.mapInfo)[id].inTried || old(m.mapInfo)[id].refCount != 0) ==>
              nLostUnk == 0 && m.mapInfo == old(m.mapInfo) && m.mapAddr == old(m.mapAddr) && m.vRandom == old(m.vRandom)
  {
    hide RandomOk, Dense, StillSound, Sound, CountOk, Pruned, TableOf, LastWins;
    nLostUnk := 0;
    PrunedNone(m.mapInfo, m.mapAddr);
    DenseRandom(m.mapInfo, m.vRandom, Low(m.nNew), m.nIdCount);
    if m.nNew >= 0 {
      SplitCounts(m.mapInfo, m.vRandom, m.nNew, m.nIdCount);
      SplitSound(m);
    }
    var id := Low(m.nNew);
    while id < m.nIdCount
      invariant id <= m.nIdCount && RandomOk(m.mapInfo, m.vRandom) && m.nNew == old(m.nNew) - nLostUnk && nLostUnk >= 0
      invariant Pruned(old(m.mapInfo), old(m.mapAddr), m.mapInfo, m.mapAddr)
      invariant old(m.nNew) >= 0 ==> StillSound(m) && CountOk(m.mapInfo, m.nNew, m.nIdCount - old(m.nNew))
      invariant forall i :: i in m.mapInfo ==>
                              i in old(m.mapInfo) && m.mapInfo[i] == old(m.mapInfo)[i].(randomPos := m.mapInfo[i].randomPos)
      invariant forall i :: i in m.mapInfo && i < id ==> m.mapInfo[i].inTried || m.mapInfo[i].refCount != 0
      invariant forall i :: i in old(m.mapInfo) ==> i in m.mapInfo || (!old(m.mapInfo)[i].inTried && old(m.mapInfo)[i].refCount == 0)
      invariant (forall i :: i in old(m.mapInfo) ==> old(m.mapInfo)[i].inTried || old(m.mapInfo)[i].refCount != 0) ==>
                  nLostUnk == 0 && m.mapInfo == old(m.mapInfo) && m.mapAddr == old(m.mapAddr) && m.vRandom == old(m.vRandom)
    {
      if id in m.mapInfo && !m.mapInfo[id].inTried && m.mapInfo[id].refCount == 0 {
        PruneOne(m, id, old(m.mapInfo), old(m.mapAddr), m.nIdCount - old(m.nNew), old(m.nNew) >= 0);
        nLostUnk := nLostUnk + 1;
      }
      id := id + 1;
    }
  }

  method PruneOne(m: AddrMan, id: int, ghost loaded: InfoMap, ghost addr: map<NetAddr, int>, ghost nTried: int, ghost sound: bool)
    requires RandomOk(m.mapInfo, m.vRandom) && id in m.mapInfo && !m.mapInfo[id].inTried && m.mapInfo[id].refCount == 0
    requires Pruned(loaded, addr, m.mapInfo, m.mapAddr) && (sound ==> StillSound(m) && CountOk(m.mapInfo, m.nNew, nTried))
    modifies m`mapInfo, m`mapAddr, m`vRandom, m`nNew
    ensures RandomOk(m.mapInfo, m.vRandom) && Survive(old(m.mapInfo), m.mapInfo, {id}) && m.nNew == old(m.nNew) - 1
    ensures Pruned(loaded, addr, m.mapInfo, m.mapAddr) && (sound ==> StillSound(m) && CountOk(m.mapInfo, m.nNew, nTried))
  {
    hide RandomOk, Sound, CountOk, Pruned, TableOf, Survive;
    m.Delete(id, {}, 0);
    SurviveWithout(old(m.mapInfo), m.mapInfo, id);
    PrunedNext(loaded, addr, old(m.mapInfo), old(m.mapAddr), id, m.mapInfo);
    if sound {
      SoundDeleted(m.keyed(m.nKey), old(m.mapInfo), TableOf(m.vvNew), TableOf(m.vvTried), id, m.mapInfo);
      DeletedCounts(old(m.mapInfo), old(m.nNew), nTried, id, m.mapInfo);
    }
  }

  ghost predicate StillSound(m: AddrMan)
    reads m`mapInfo, m`nKey, m.vvNew, m.vvTried
  {
    Sound(m.keyed(m.nKey), m.mapInfo, TableOf(m.vvNew), TableOf(m.vvTried))
  }

  lemma DenseRandom(info: InfoMap, rnd: seq<int>, lo: int, hi: int)
    requires Dense(info, rnd, lo, hi)
    ensures lo <= hi && RandomOk(info, rnd) && forall i :: i in info <==> lo <= i < hi
  {}

  lemma SplitCounts(info: InfoMap, rnd: seq<int>, n: int, hi: int)
    requires 0 <= n <= hi && Dense(info, rnd, 0, hi) && forall id :: id in info ==> (info[id].inTried <==> n <= id)
    ensures CountOk(info, n, hi - n)
  {
    hide RandomOk;
    RangeSize(News(info), 0, n);
    RangeSize(Trieds(info), n, hi);
  }

  lemma SurviveWithout(info: InfoMap, info': InfoMap, id: int)
    requires Survive(info, info', {id})
    ensures Similar(info - {id}, info')
  {}

  lemma DeletedCounts(info: InfoMap, nNew: int, nTried: int, id: int, info': InfoMap)
    requires CountOk(info, nNew, nTried) && id in info && !info[id].inTried && Similar(info - {id}, info')
    ensures CountOk(info', nNew - 1, nTried)
  {
    forall k
      ensures k in News(info') <==> k in News(info) - {id}
      ensures k in Trieds(info') <==> k in Trieds(info)
    {
      assert k in info - {id} ==> SameKeys((info - {id})[k], info'[k]);
    }
    assert News(info') == News(info) - {id} && Trieds(info') == Trieds(info);
  }

  /** An accepted file gives a valid manager exactly if its counts are not negative and no entry that is left shares its address. */
  lemma ValidIff(m: AddrMan, loaded: InfoMap, addr: map<NetAddr, int>, nNew: int, nTried: int, nLost: int)
    requires m.Shape() && RandomOk(m.mapInfo, m.vRandom) && m.nNew <= nNew && m.nTried == nTried - nLost && nLost >= 0
    requires Pruned(loaded, addr, m.mapInfo, m.mapAddr) && (nNew >= 0 ==> LastWins(loaded, addr))
    requires nNew >= 0 ==> StillSound(m) && (forall id :: id in loaded <==> 0 <= id < m.nIdCount) && nNew <= m.nIdCount
    requires nNew >= 0 ==> CountOk(m.mapInfo, m.nNew, m.nIdCount - nNew) && m.nIdCount - nNew + nLost == Max(0, nTried)
    requires forall id :: id in m.mapInfo ==> m.mapInfo[id].inTried || m.mapInfo[id].refCount != 0
    ensures m.Valid() <==> nNew >= 0 && nTried >= 0 && Unshared(loaded, m.mapInfo)
  {
    hide RandomOk, AddrOk, NewOk, TriedOk, RefsOk, LastWins, Unshared, News, Trieds, TableOf;
    if nNew >= 0 {
      AddrOkIff(loaded, addr, m.mapInfo, m.mapAddr);
      NonePending(m.mapInfo, TableOf(m.vvNew));
    }
  }

  /** The parts of the file after its header. */
  method LoadTables(m: AddrMan, s: Stream, nUBuckets: int, ghost t: State, ghost good: bool) returns (ok: bool)
    requires m.Shape() && m.mapInfo == map[] && m.mapAddr == map[] && m.vRandom == []
    requires TableOf(m.vvNew) == map[] && TableOf(m.vvTried) == map[]
    requires good ==> Describes(s, t) && Inv(t, {}) && nUBuckets == NEW_BUCKET_COUNT && m.keyed(m.nKey) == t.h
    requires good ==> m.nNew == t.nNew && m.nTried == t.nTried
    requires m.nNew == s.nNew && m.nTried == s.nTried && nUBuckets == BucketsOf(s)
    modifies m, m.vvNew, m.vvTried
    ensures m.Shape() && m.nKey == old(m.nKey)
    ensures ok <==> Complete(s)
    ensures ok ==> RandomOk(m.mapInfo, m.vRandom)
    ensures ok && s.nNew >= 0 ==> Contents(s, m.keyed(m.nKey), m.mapInfo) && TableOf(m.vvNew) == NewTable(s, m.keyed(m.nKey))
    ensures ok && s.nNew >= 0 ==> TriedOk(m.keyed(m.nKey), m.mapInfo, TableOf(m.vvTried))
    ensures ok ==> (m.Valid() <==> s.nNew >= 0 && s.nTried >= 0 && AddrStream.Consistent(s, m.keyed(m.nKey)))
    ensures good ==> ok && m.Abs() == t
  {
    hide Inv, TableOf, RandomOk, TriedOk, Placed, Loaded, Describes, SoundSplit, StillSound, OfFile, Pruned, Unshared, LastWins, CountOk, Dense,
      SameButCounts, Contents, NewTable, AddrStream.Consistent, Kept, SourceTable, BucketTable, NewLoaded, UsesBuckets, Sound, BucketsOf;
    if good {
      Header(s, t);
      NothingToPrune(t);
    }
    var nLost;
    ok, nLost := LoadEntries(m, s, nUBuckets, t, good);
    if !ok {
      return;
    }
    ghost var before := m.mapInfo;
    ok := LoadBuckets(m, s, nUBuckets, t, good);
    if !ok {
      return;
    }
    if m.nNew >= 0 {
      OfFileSame(s, before, m.mapInfo, m.nNew, KeptOf(s, m.keyed(m.nKey)));
      WhichTable(s, m.keyed(m.nKey));
    }
    FinishLoad(m, s, nLost);
  }

  /** Both kinds of entries. */
  method LoadEntries(m: AddrMan, s: Stream, nUBuckets: int, ghost t: State, ghost good: bool) returns (ok: bool, nLost: int)
    requires m.Shape() && m.mapInfo == map[] && m.mapAddr == map[] && m.vRandom == []
    requires TableOf(m.vvNew) == map[] && TableOf(m.vvTried) == map[]
    requires good ==> Describes(s, t) && Inv(t, {}) && nUBuckets == NEW_BUCKET_COUNT && m.keyed(m.nKey) == t.h
    requires good ==> m.nNew == t.nNew && m.nTried == t.nTried
    requires m.nNew == s.nNew && m.nTried == s.nTried && nUBuckets == BucketsOf(s)
    modifies m, m.vvNew, m.vvTried
    ensures m.Shape() && m.nKey == old(m.nKey) && m.nNew == s.nNew
    ensures ok <==> s.nNew <= |s.newInfos| && s.nTried <= |s.triedInfos|
    ensures ok ==> Dense(m.mapInfo, m.vRandom, Low(m.nNew), m.nIdCount) && m.nNew <= m.nIdCount && NewLoaded(s, m.mapInfo, m.nNew)
    ensures ok ==> nLost >= 0 && m.nTried == s.nTried - nLost && m.nIdCount - m.nNew + nLost == Max(0, s.nTried)
    ensures ok && m.nNew >= 0 ==> SoundSplit(m, m.nNew) && OfFile(s, m.mapInfo, m.nNew, Kept(s, m.keyed(m.nKey), Max(0, s.nTried)))
    ensures ok ==> TableOf(m.vvNew) == if UsesBuckets(s) then map[] else SourceTable(s, m.keyed(m.nKey), Max(0, m.nNew))
    ensures good ==> ok && nLost == 0 && m.nIdCount == t.next && Placed(t, m.mapInfo, TableOf(m.vvNew)) && TableOf(m.vvTried) == t.triedT
    ensures good ==> m.mapAddr == t.addr && m.vRandom == t.rnd
  {
    hide Inv, TableOf, RandomOk, Placed, Loaded, Describes, SoundSplit, OfFile, Kept, SourceTable, NewLoaded, UsesBuckets, BucketsOf, Dense;
    if good {
      Header(s, t);
    }
    nLost := 0;
    ok := LoadNew(m, s, nUBuckets, t, good);
    if !ok {
      return;
    }
    m.nIdCount := m.nNew;
    ok, nLost := LoadTried(m, s, t, good);
    if !ok {
      return;
    }
    m.nTried := m.nTried - nLost;
    if good {
      LoadedAll(t, s, m.mapInfo, m.mapAddr, m.vRandom);
      PlacedNone(t, m.mapInfo, m.mapAddr);
    }
    FileLoaded(s, m.mapInfo, m.nNew, Kept(s, m.keyed(m.nKey), Max(0, s.nTried)));
  }

  /** Pruning, and what is left then. */
  method FinishLoad(m: AddrMan, s: Stream, ghost nLost: int)
    requires m.Shape() && Complete(s) && m.nNew == s.nNew && m.nTried == s.nTried - nLost && nLost >= 0
    requires Dense(m.mapInfo, m.vRandom, Low(m.nNew), m.nIdCount) && m.nNew <= m.nIdCount && m.nIdCount - m.nNew + nLost == Max(0, s.nTried)
    requires m.nNew >= 0 ==> SoundSplit(m, m.nNew) && OfFile(s, m.mapInfo, m.nNew, KeptOf(s, m.keyed(m.nKey)))
    requires m.nNew >= 0 ==> TableOf(m.vvNew) == NewTable(s, m.keyed(m.nKey))
    modifies m`mapInfo, m`mapAddr, m`vRandom, m`nNew
    ensures m.Shape() && RandomOk(m.mapInfo, m.vRandom)
    ensures s.nNew >= 0 ==> Contents(s, m.keyed(m.nKey), m.mapInfo) && TriedOk(m.keyed(m.nKey), m.mapInfo, TableOf(m.vvTried))
    ensures m.Valid() <==> s.nNew >= 0 && s.nTried >= 0 && AddrStream.Consistent(s, m.keyed(m.nKey))
    ensures (forall id :: id in old(m.mapInfo) ==> old(m.mapInfo)[id].inTried || old(m.mapInfo)[id].refCount != 0) ==>
              m.nNew == old(m.nNew) && m.mapInfo == old(m.mapInfo) && m.mapAddr == old(m.mapAddr) && m.vRandom == old(m.vRandom)
  {
    hide Inv, TableOf, RandomOk, TriedOk, SoundSplit, StillSound, OfFile, Pruned, Unshared, LastWins, CountOk, Dense, Contents, NewTable,
      AddrStream.Consistent, KeptOf, Sound, BucketsOf, Counted, Ips, LeftOf;
    ghost var loaded, addr, h := m.mapInfo, m.mapAddr, m.keyed(m.nKey);
    DenseRandom(m.mapInfo, m.vRandom, Low(m.nNew), m.nIdCount);
    if m.nNew >= 0 {
      SplitLast(m);
      LoadedCounts(s, h, loaded, TableOf(m.vvNew), TableOf(m.vvTried));
    }
    var nLostUnk := Prune(m);
    ValidIff(m, loaded, addr, s.nNew, s.nTried, nLost);
    if s.nNew >= 0 {
      SoundTables(m);
      LeftContents(s, h, loaded, m.mapInfo);
      UnsharedIff(s, h, loaded, m.mapInfo);
    }
  }

  lemma SplitSound(m: AddrMan)
    requires SoundSplit(m, m.nNew)
    ensures StillSound(m)
  {}

  lemma SoundTables(m: AddrMan)
    requires StillSound(m)
    ensures TriedOk(m.keyed(m.nKey), m.mapInfo, TableOf(m.vvTried))
  {}

  lemma SplitLast(m: AddrMan)
    requires SoundSplit(m, m.nNew)
    ensures LastWins(m.mapInfo, m.mapAddr) && Sound(m.keyed(m.nKey), m.mapInfo, TableOf(m.vvNew), TableOf(m.vvTried))
  {}

  lemma FileLoaded(s: Stream, info: InfoMap, nNew: int, kept: seq<nat>)
    requires nNew == s.nNew <= |s.newInfos| && (nNew >= 0 ==> OfFile(s, info, nNew, kept))
    ensures NewLoaded(s, info, nNew)
  {}

  /**
   * Unserialize, for every file. It is accepted exactly if it is readable. What it leaves then is given by the
   * file and the hashes alone: the entries, their reference counts and the new table. The manager is valid
   * exactly if the counts are not negative and the addresses that matter differ. A file that describes valid
   * tables t is accepted, loses nothing and rebuilds exactly t.
   */
  method Unserialize(m: AddrMan, s: Stream, rndKey: nat, ghost t: State) returns (ok: bool)
    requires m.Shape()
    modifies m, m.vvNew, m.vvTried
    ensures m.Shape()
    ensures ok <==> Readable(s)
    ensures ok ==> m.nKey == s.key && RandomOk(m.mapInfo, m.vRandom)
    ensures ok && s.nNew >= 0 ==> Contents(s, m.keyed(s.key), m.mapInfo) && TableOf(m.vvNew) == NewTable(s, m.keyed(s.key))
    ensures ok && s.nNew >= 0 ==> TriedOk(m.keyed(s.key), m.mapInfo, TableOf(m.vvTried))
    ensures ok ==> (m.Valid() <==> s.nNew >= 0 && s.nTried >= 0 && AddrStream.Consistent(s, m.keyed(s.key)))
    ensures Describes(s, t) && Inv(t, {}) && m.keyed(s.key) == t.h ==> ok && m.Abs() == t
  {
    hide Inv, TableOf, RandomOk, TriedOk, Placed, Loaded, Dense, Signed, Describes, Low, Contents, NewTable, AddrStream.Consistent;
    ghost var good := Describes(s, t) && Inv(t, {}) && m.keyed(s.key) == t.h;
    m.Clear(rndKey);
    assert good ==> s.keySize == 32 by {
      if good {
        Header(s, t);
      }
    }
    if s.keySize != 32 {
      return false;
    }
    m.nKey, m.nNew, m.nTried := s.key, s.nNew, s.nTried;
    BucketCount();
    var nUBuckets := ReadBucketCount(s);
    if good {
      WithinLimits(t);
      Header(s, t);
    }
    if m.nNew > NEW_BUCKET_COUNT * BUCKET_SIZE || m.nTried > TRIED_BUCKET_COUNT * BUCKET_SIZE {
      return false;
    }
    ok := LoadTables(m, s, nUBuckets, t, good);
  }

  method ReadBucketCount(s: Stream) returns (nUBuckets: int)
    ensures nUBuckets == BucketsOf(s)
  {
    nUBuckets := Signed(s.nUBuckets);
    if s.version != 0 {
      nUBuckets := Signed(s.nUBuckets ^ BUCKET_TAG);
    }
  }

  lemma Header(s: Stream, t: State)
    requires Describes(s, t)
    ensures s.version == 1 && s.keySize == 32 && s.nUBuckets == BUCKETS ^ BUCKET_TAG
    ensures s.nNew == t.nNew && s.nTried == t.nTried && forall i :: i in t.info <==> 0 <= i < t.next
    ensures 0 <= t.nNew && Low(t.nNew) == 0
  {}

  lemma NothingToPrune(t: State)
    requires Inv(t, {})
    ensures forall id :: id in t.info ==> t.info[id].inTried || t.info[id].refCount != 0
  {
    forall id | id in t.info
      ensures t.info[id].inTried || t.info[id].refCount != 0
    {
      CountedRefs(t, {}, id);
    }
  }

  /** A file with a negative count is accepted although it gives no valid manager. */
  method NegativeExample(m: AddrMan, ghost t: State) returns (s: Stream, ok: bool)
    requires m.Shape()
    modifies m, m.vvNew, m.vvTried
    ensures s.nNew == 0 && s.nTried < 0
    ensures ok && !m.Valid()
  {
    hide Inv, Describes, RandomOk, TriedOk, Signed, Contents, NewTable, AddrStream.Consistent;
    BucketCount();
    s := Stream(1, 32, 7, 0, -1, BUCKETS ^ BUCKET_TAG, [], [], seq(NEW_BUCKET_COUNT, i => []));
    ok := Unserialize(m, s, 0, t);
  }

  /** So is a file with one address among both the untried and the tried entries. */
  method SharedExample(m: AddrMan, p: Persisted, ghost t: State) returns (s: Stream, ok: bool)
    requires m.Shape()
    modifies m, m.vvNew, m.vvTried
    ensures s.nNew == s.nTried == 1 && s.newInfos == s.triedInfos == [p]
    ensures ok && !m.Valid()
  {
    hide Inv, Describes, RandomOk, TriedOk, Signed, Contents, NewTable;
    BucketCount();
    s := Stream(1, 32, 7, 1, 1, BUCKETS ^ BUCKET_TAG, [p], [p], seq(NEW_BUCKET_COUNT, i => [0]));
    ok := Unserialize(m, s, 0, t);
    assert SlotFree(s, m.keyed(7), 0) && NewIp(s, 0) == TriedIp(s, 0);
  }

  /** The same tried entry twice does no harm: the second finds the slot taken. */
  method RepeatedExample(m: AddrMan, p: Persisted, ghost t: State) returns (s: Stream, ok: bool)
    requires m.Shape()
    modifies m, m.vvNew, m.vvTried
    ensures s.nNew == 0 && s.nTried == 2 && s.triedInfos == [p, p]
    ensures ok && m.Valid()
  {
    hide Inv, Describes, RandomOk, TriedOk, Signed, Contents, NewTable;
    BucketCount();
    s := Stream(1, 32, 7, 0, 2, BUCKETS ^ BUCKET_TAG, [], [p, p], seq(NEW_BUCKET_COUNT, i => []));
    ok := Unserialize(m, s, 0, t);
    assert TriedSlotOf(s, m.keyed(7), 0) == TriedSlotOf(s, m.keyed(7), 1);
  }

  /** Every readable file without negative counts whose addresses all differ gives a valid manager. */
  method LoadDifferent(m: AddrMan, s: Stream, rndKey: nat, ghost t: State) returns (ok: bool)
    requires m.Shape() && Readable(s) && s.nNew >= 0 && s.nTried >= 0 && AllDifferent(s)
    modifies m, m.vvNew, m.vvTried
    ensures ok && m.Valid()
  {
    hide Inv, Describes, RandomOk, TriedOk, BucketsOf, Contents, NewTable, AddrStream.Consistent, AllDifferent;
    DifferentConsistent(s, m.keyed(s.key));
    ok := Unserialize(m, s, rndKey, t);
  }

  /** Saving one manager and loading the file into another copies it up to the numbering of its entries. */
  method SaveAndLoad(m: AddrMan, m': AddrMan, rndKey: nat) returns (ok: bool)
    requires m.Valid() && m'.Shape() && m'.keyed == m.keyed
    requires m'.vvNew != m.vvNew && m'.vvNew != m.vvTried && m'.vvTried != m.vvNew && m'.vvTried != m.vvTried && m' != m
    modifies m', m'.vvNew, m'.vvTried
    ensures ok && m'.Valid() && m'.nKey == m.nKey && SameUpTo(m.Abs(), m'.Abs(), RenameMap(m.Abs()))
  {
    hide Inv, TableOf, RandomOk, Describes, SameUpTo, RenameMap, Target, FileOf;
    ghost var a := m.Abs();
    var s := Serialize(m);
    FileDescribes(m.nKey, a);
    TargetInv(a);
    TargetSame(a);
    TargetKey(a, m.nKey);
    ok := Unserialize(m', s, rndKey, Target(a));
  }

  lemma TargetKey(s: State, key: nat)
    requires Inv(s, {})
    ensures Target(s).h == s.h && FileOf(key, s).key == key
  {}
}
