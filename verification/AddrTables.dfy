/**
 * The indexes of the address manager as values (src/addrman.h), the structural invariant that Check_
 * writes down (src/addrman.cpp), and what each elementary change does to it.
 */
module AddrTables {

  const NEW_BUCKET_COUNT := 1024
  const TRIED_BUCKET_COUNT := 256
  const BUCKET_SIZE := 64
  const TRIED_BUCKETS_PER_GROUP := 8
  const NEW_BUCKETS_PER_SOURCE_GROUP := 64
  const NEW_BUCKETS_PER_ADDRESS := 8
  const HORIZON_DAYS := 30
  const RETRIES := 3
  const MAX_FAILURES := 10
  const MIN_FAIL_DAYS := 7
  const GETADDR_MAX_PCT := 23
  const GETADDR_MAX := 2500

  /** CNetAddr, and CService: an address with a port. */
  type NetAddr = nat
  datatype Service = Service(ip: NetAddr, port: nat)

  /** CAddress */
  datatype Address = Address(service: Service, services: bv64, time: int)

  datatype Info = Info(addr: Address, source: NetAddr, lastTry: int, lastCountAttempt: int,
                       lastSuccess: int, attempts: int, refCount: int, inTried: bool, randomPos: int)
  {
    function Ip(): NetAddr { addr.service.ip }
  }

  type InfoMap = map<int, Info>

  /** A place in one of the two tables. */
  datatype Slot = Slot(bucket: nat, pos: nat)
  type Table = map<Slot, int>

  /** The keyed hashes behind bucket and position selection. */
  datatype Hashes = Hashes(group: NetAddr -> nat, ofKey: Service -> nat, tried: (nat, nat) -> nat,
                           ofGroups: (nat, nat) -> nat, untried: (nat, nat) -> nat, position: (bool, nat, Service) -> nat)
  {
    function TriedBucket(s: Service): nat { tried(group(s.ip), ofKey(s) % TRIED_BUCKETS_PER_GROUP) % TRIED_BUCKET_COUNT }
    function NewBucket(s: Service, source: NetAddr): nat {
      untried(group(source), ofGroups(group(s.ip), group(source)) % NEW_BUCKETS_PER_SOURCE_GROUP) % NEW_BUCKET_COUNT
    }
    function Position(isNew: bool, bucket: nat, s: Service): nat { position(isNew, bucket, s) % BUCKET_SIZE }

    function TriedSlot(s: Service): Slot { Slot(TriedBucket(s), Position(false, TriedBucket(s), s)) }
    function NewSlot(s: Service, source: NetAddr): Slot { NewSlotIn(s, NewBucket(s, source)) }
    function NewSlotIn(s: Service, bucket: nat): Slot { Slot(bucket, Position(true, bucket, s)) }
  }

  /** All tried addresses of one group lie in eight buckets. */
  lemma TriedSpread(h: Hashes, group: nat) returns (buckets: set<nat>)
    ensures |buckets| <= 8
    ensures forall s: Service :: h.group(s.ip) == group ==> h.TriedSlot(s).bucket in buckets && h.TriedSlot(s).bucket < 256
  {
    var f: nat -> nat := i => h.tried(group, i) % TRIED_BUCKET_COUNT;
    buckets := Spread(f, TRIED_BUCKETS_PER_GROUP);
    forall s: Service | h.group(s.ip) == group
      ensures h.TriedSlot(s).bucket in buckets && h.TriedSlot(s).bucket < 256
    {
      var i: nat := h.ofKey(s) % TRIED_BUCKETS_PER_GROUP;
      assert f(i) in buckets && h.TriedSlot(s).bucket == f(i);
    }
  }

  /** All addresses that one group of sources announces lie in sixty-four buckets, whatever the addresses are. */
  lemma NewSpread(h: Hashes, group: nat) returns (buckets: set<nat>)
    ensures |buckets| <= 64
    ensures forall s: Service, source :: h.group(source) == group ==> h.NewSlot(s, source).bucket in buckets && h.NewSlot(s, source).bucket < 1024
  {
    var f: nat -> nat := i => h.untried(group, i) % NEW_BUCKET_COUNT;
    buckets := Spread(f, NEW_BUCKETS_PER_SOURCE_GROUP);
    forall s: Service, source | h.group(source) == group
      ensures h.NewSlot(s, source).bucket in buckets && h.NewSlot(s, source).bucket < 1024
    {
      var i: nat := h.ofGroups(h.group(s.ip), group) % NEW_BUCKETS_PER_SOURCE_GROUP;
      assert f(i) in buckets && h.NewSlot(s, source).bucket == f(i);
    }
  }

  lemma {:induction false} Spread(f: nat -> nat, n: nat) returns (image: set<nat>)
    ensures |image| <= n && forall i: nat :: i < n ==> f(i) in image
  {
    image := {};
    if n > 0 {
      var rest := Spread(f, n - 1);
      image := rest + {f(n - 1)};
    }
  }

  // ----- the invariant, index by index ----------------------------------------------------------------

  /** vRandom and nRandomPos are inverse to each other. */
  ghost predicate RandomOk(info: InfoMap, rnd: seq<int>) {
    && (forall id :: id in info ==> 0 <= info[id].randomPos < |rnd| && rnd[info[id].randomPos] == id)
    && (forall i :: 0 <= i < |rnd| ==> rnd[i] in info && info[rnd[i]].randomPos == i)
  }

  /** mapAddr inverts mapInfo. */
  ghost predicate AddrOk(info: InfoMap, addr: map<NetAddr, int>) {
    && (forall id :: id in info ==> info[id].Ip() in addr && addr[info[id].Ip()] == id)
    && (forall a :: a in addr ==> addr[a] in info && info[addr[a]].Ip() == a)
  }

  ghost predicate IdsOk(info: InfoMap, next: int) {
    0 <= next && forall id :: id in info ==> 0 <= id < next
  }

  /** New-table slots hold untried entries at their hash-determined positions. */
  ghost predicate NewOk(h: Hashes, info: InfoMap, newT: Table) {
    forall s :: s in newT ==> NewSlotOk(h, info, s, newT[s])
  }

  ghost predicate NewSlotOk(h: Hashes, info: InfoMap, s: Slot, id: int) {
    && s.bucket < NEW_BUCKET_COUNT
    && id in info && !info[id].inTried
    && s == h.NewSlotIn(info[id].addr.service, s.bucket)
  }

  /** Tried entries sit exactly in their one slot. */
  ghost predicate TriedOk(h: Hashes, info: InfoMap, triedT: Table) {
    && (forall s :: s in triedT ==> TriedSlotOk(h, info, s, triedT[s]))
    && (forall id :: id in info && info[id].inTried ==> InTable(h, info[id], triedT, id))
  }

  ghost predicate TriedSlotOk(h: Hashes, info: InfoMap, s: Slot, id: int) {
    id in info && info[id].inTried && s == h.TriedSlot(info[id].addr.service)
  }

  ghost predicate InTable(h: Hashes, e: Info, triedT: Table, id: int) {
    var s := h.TriedSlot(e.addr.service);
    s in triedT && triedT[s] == id
  }

  /** The slots of the new table that hold an id. */
  ghost function Refs(newT: Table, id: int): set<Slot> {
    set s | s in newT && newT[s] == id
  }

  /** Reference counts count slots, up to eight; a new entry has one unless it is listed as pending. */
  ghost predicate RefsOk(info: InfoMap, newT: Table, pending: set<int>) {
    forall id :: id in info ==> RefOk(info[id], newT, id, id in pending)
  }

  ghost predicate RefOk(e: Info, newT: Table, id: int, pending: bool) {
    && e.refCount == |Refs(newT, id)|
    && e.refCount <= NEW_BUCKETS_PER_ADDRESS
    && (!e.inTried && !pending ==> e.refCount >= 1)
  }

  ghost function News(info: InfoMap): set<int> { set id | id in info && !info[id].inTried }
  ghost function Trieds(info: InfoMap): set<int> { set id | id in info && info[id].inTried }

  ghost predicate CountOk(info: InfoMap, nNew: int, nTried: int) {
    nNew == |News(info)| && nTried == |Trieds(info)|
  }

  /** The conditions of Check_ on times. */
  ghost predicate TimesOk(info: InfoMap) {
    forall id :: id in info ==> info[id].lastTry >= 0 && info[id].lastSuccess >= 0 &&
                                (info[id].inTried ==> info[id].lastSuccess != 0)
  }

  datatype State = State(h: Hashes, info: InfoMap, addr: map<NetAddr, int>, rnd: seq<int>, next: int,
                         newT: Table, triedT: Table, nNew: int, nTried: int)

  /** Everything Check_ tests, with the entries in `pending` allowed to be in no table yet. */
  ghost predicate Inv(s: State, pending: set<int>) {
    && RandomOk(s.info, s.rnd) && AddrOk(s.info, s.addr) && IdsOk(s.info, s.next)
    && NewOk(s.h, s.info, s.newT) && TriedOk(s.h, s.info, s.triedT)
    && RefsOk(s.info, s.newT, pending) && CountOk(s.info, s.nNew, s.nTried)
  }

  lemma EmptyInv(h: Hashes)
    ensures Inv(State(h, map[], map[], [], 0, map[], map[], 0, 0), {})
  {
    assert News(map[]) == {} && Trieds(map[]) == {};
  }

  // ----- changes the tables do not notice -----------------------------------------------------------------

  /** Same entries as far as the tables are concerned. */
  ghost predicate Similar(info: InfoMap, info': InfoMap) {
    info'.Keys == info.Keys && forall id :: id in info ==> SameKeys(info[id], info'[id])
  }

  ghost predicate SameKeys(e: Info, e': Info) {
    e'.addr.service == e.addr.service && e'.inTried == e.inTried && e'.refCount == e.refCount
  }

  lemma SimilarTables(h: Hashes, info: InfoMap, info': InfoMap, newT: Table, triedT: Table)
    requires Similar(info, info') && NewOk(h, info, newT) && TriedOk(h, info, triedT)
    ensures NewOk(h, info', newT) && TriedOk(h, info', triedT)
  {
    forall s | s in newT
      ensures NewSlotOk(h, info', s, newT[s])
    {
      assert NewSlotOk(h, info, s, newT[s]);
    }
    forall s | s in triedT
      ensures TriedSlotOk(h, info', s, triedT[s])
    {
      assert TriedSlotOk(h, info, s, triedT[s]);
    }
    forall id | id in info' && info'[id].inTried
      ensures InTable(h, info'[id], triedT, id)
    {
      assert InTable(h, info[id], triedT, id);
    }
  }

  lemma SimilarCounts(info: InfoMap, info': InfoMap, newT: Table, pending: set<int>, nNew: int, nTried: int)
    requires Similar(info, info') && RefsOk(info, newT, pending) && CountOk(info, nNew, nTried)
    ensures RefsOk(info', newT, pending) && CountOk(info', nNew, nTried)
  {
    forall id
      ensures id in News(info') <==> id in News(info)
      ensures id in Trieds(info') <==> id in Trieds(info)
    {
      assert id in info ==> SameKeys(info[id], info'[id]);
    }
    assert News(info') == News(info) && Trieds(info') == Trieds(info);
    forall id | id in info'
      ensures RefOk(info'[id], newT, id, id in pending)
    {
      assert RefOk(info[id], newT, id, id in pending);
    }
  }

  lemma SimilarAddr(info: InfoMap, info': InfoMap, addr: map<NetAddr, int>)
    requires Similar(info, info') && AddrOk(info, addr)
    ensures AddrOk(info', addr)
  {}

  /** Only the random order may have changed. */
  lemma SimilarInv(s: State, pending: set<int>, info': InfoMap, rnd': seq<int>)
    requires Inv(s, pending) && Similar(s.info, info') && RandomOk(info', rnd')
    ensures Inv(s.(info := info', rnd := rnd'), pending)
  {
    hide RandomOk, AddrOk, NewOk, TriedOk, RefsOk, CountOk;
    SimilarTables(s.h, s.info, info', s.newT, s.triedT);
    SimilarCounts(s.info, info', s.newT, pending, s.nNew, s.nTried);
    SimilarAddr(s.info, info', s.addr);
  }

  /** Updating statistics of one entry. */
  lemma UpdateStats(s: State, pending: set<int>, id: int, e: Info)
    requires Inv(s, pending) && id in s.info && SameKeys(s.info[id], e) && e.randomPos == s.info[id].randomPos
    ensures Inv(s.(info := s.info[id := e]), pending)
  {
    hide AddrOk, NewOk, TriedOk, RefsOk, CountOk;
    SimilarInv(s, pending, s.info[id := e], s.rnd);
  }

  // ----- elementary changes --------------------------------------------------------------------------------

  function NewInfo(a: Address, source: NetAddr, randomPos: int): Info {
    Info(a, source, 0, 0, 0, 0, 0, false, randomPos)
  }

  /** Create, with the new entry counted: it is in no table yet. */
  function Created(s: State, a: Address, source: NetAddr): State {
    s.(info := s.info[s.next := NewInfo(a, source, |s.rnd|)], addr := s.addr[a.service.ip := s.next],
       rnd := s.rnd + [s.next], next := s.next + 1, nNew := s.nNew + 1)
  }

  lemma CreatedInv(s: State, pending: set<int>, a: Address, source: NetAddr)
    requires Inv(s, pending) && a.service.ip !in s.addr
    ensures Inv(Created(s, a, source), pending + {s.next})
  {
    hide RandomOk, AddrOk, NewOk, TriedOk, RefsOk, CountOk;
    var id, e := s.next, NewInfo(a, source, |s.rnd|);
    CreatedRandom(s.info, s.rnd, id, e);
    CreatedAddr(s.info, s.addr, id, e);
    CreatedCounts(s.info, s.nNew, s.nTried, id, e);
    CreatedTables(s.h, s.info, s.newT, s.triedT, pending, id, e);
  }

  lemma CreatedCounts(info: InfoMap, nNew: int, nTried: int, id: int, e: Info)
    requires CountOk(info, nNew, nTried) && id !in info && !e.inTried
    ensures CountOk(info[id := e], nNew + 1, nTried)
  {
    assert News(info[id := e]) == News(info) + {id} && Trieds(info[id := e]) == Trieds(info);
  }

  lemma CreatedRandom(info: InfoMap, rnd: seq<int>, id: int, e: Info)
    requires RandomOk(info, rnd) && id !in info && e.randomPos == |rnd|
    ensures RandomOk(info[id := e], rnd + [id])
  {}

  lemma CreatedAddr(info: InfoMap, addr: map<NetAddr, int>, id: int, e: Info)
    requires AddrOk(info, addr) && id !in info && e.Ip() !in addr
    ensures AddrOk(info[id := e], addr[e.Ip() := id])
  {}

  lemma CreatedTables(h: Hashes, info: InfoMap, newT: Table, triedT: Table, pending: set<int>, id: int, e: Info)
    requires NewOk(h, info, newT) && TriedOk(h, info, triedT) && RefsOk(info, newT, pending)
    requires id !in info && !e.inTried && e.refCount == 0
    ensures NewOk(h, info[id := e], newT) && TriedOk(h, info[id := e], triedT)
    ensures RefsOk(info[id := e], newT, pending + {id})
  {
    var info' := info[id := e];
    NoRefs(h, info, newT, id);
    forall x | x in newT
      ensures NewSlotOk(h, info', x, newT[x])
    {
      assert NewSlotOk(h, info, x, newT[x]);
    }
    forall x | x in triedT
      ensures TriedSlotOk(h, info', x, triedT[x])
    {
      assert TriedSlotOk(h, info, x, triedT[x]);
    }
    forall x | x in info' && info'[x].inTried
      ensures InTable(h, info'[x], triedT, x)
    {
      assert InTable(h, info[x], triedT, x);
    }
    forall x | x in info'
      ensures RefOk(info'[x], newT, x, x in pending + {id})
    {
      assert x != id ==> RefOk(info[x], newT, x, x in pending);
    }
  }

  lemma NoRefs(h: Hashes, info: InfoMap, newT: Table, id: int)
    requires NewOk(h, info, newT) && (id !in info || info[id].inTried)
    ensures Refs(newT, id) == {}
  {
    forall s | s in newT
      ensures newT[s] != id
    {
      assert NewSlotOk(h, info, s, newT[s]);
    }
  }

  /** Delete of an entry that is last in the random order and in no table. */
  function Deleted(s: State, id: int): State
    requires id in s.info && s.rnd != []
  {
    s.(info := s.info - {id}, addr := s.addr - {s.info[id].Ip()}, rnd := s.rnd[..|s.rnd| - 1], nNew := s.nNew - 1)
  }

  lemma DeletedInv(s: State, pending: set<int>, id: int)
    requires Inv(s, pending) && id in s.info && !s.info[id].inTried && s.info[id].refCount == 0
    requires s.rnd != [] && s.rnd[|s.rnd| - 1] == id
    ensures Inv(Deleted(s, id), pending - {id})
  {
    hide RandomOk, AddrOk, NewOk, TriedOk, RefsOk;
    var info := s.info - {id};
    DeletedRandom(s.info, s.rnd, id);
    DeletedAddr(s.info, s.addr, id);
    assert News(info) == News(s.info) - {id} && Trieds(info) == Trieds(s.info);
    DeletedTables(s.h, s.info, s.newT, s.triedT, pending, id);
  }

  lemma DeletedRandom(info: InfoMap, rnd: seq<int>, id: int)
    requires RandomOk(info, rnd) && id in info && rnd != [] && rnd[|rnd| - 1] == id
    ensures RandomOk(info - {id}, rnd[..|rnd| - 1])
  {}

  lemma DeletedAddr(info: InfoMap, addr: map<NetAddr, int>, id: int)
    requires AddrOk(info, addr) && id in info
    ensures AddrOk(info - {id}, addr - {info[id].Ip()})
  {}

  lemma DeletedTables(h: Hashes, info: InfoMap, newT: Table, triedT: Table, pending: set<int>, id: int)
    requires NewOk(h, info, newT) && TriedOk(h, info, triedT) && RefsOk(info, newT, pending)
    requires id in info && !info[id].inTried && info[id].refCount == 0
    ensures NewOk(h, info - {id}, newT) && TriedOk(h, info - {id}, triedT) && RefsOk(info - {id}, newT, pending - {id})
  {
    var info' := info - {id};
    assert RefOk(info[id], newT, id, id in pending);
    assert Refs(newT, id) == {};
    forall s | s in newT
      ensures NewSlotOk(h, info', s, newT[s])
    {
      assert NewSlotOk(h, info, s, newT[s]);
      assert s !in Refs(newT, id);
    }
    forall s | s in triedT
      ensures TriedSlotOk(h, info', s, triedT[s])
    {
      assert TriedSlotOk(h, info, s, triedT[s]);
    }
    forall x | x in info' && info'[x].inTried
      ensures InTable(h, info'[x], triedT, x)
    {
      assert InTable(h, info[x], triedT, x);
    }
    forall x | x in info'
      ensures RefOk(info'[x], newT, x, x in pending - {id})
    {
      assert RefOk(info[x], newT, x, x in pending);
    }
  }

  /** Take one slot of the new table away from the entry that holds it. */
  function Unreferenced(s: State, slot: Slot): State
    requires slot in s.newT && s.newT[slot] in s.info
  {
    var id := s.newT[slot];
    s.(newT := s.newT - {slot}, info := s.info[id := s.info[id].(refCount := s.info[id].refCount - 1)])
  }

  lemma UnreferencedInv(s: State, pending: set<int>, slot: Slot)
    requires Inv(s, pending) && slot in s.newT
    ensures s.newT[slot] in s.info && s.info[s.newT[slot]].refCount > 0 && !s.info[s.newT[slot]].inTried
    ensures Inv(Unreferenced(s, slot), pending + {s.newT[slot]})
  {
    assert NewSlotOk(s.h, s.info, slot, s.newT[slot]);
    hide RandomOk, AddrOk, NewOk, TriedOk, CountOk, RefsOk;
    var id := s.newT[slot];
    UnreferencedRefs(s.info, s.newT, pending, slot);
    RefCountOnly(s, id, s.info[id].refCount - 1);
    UnreferencedSlots(s.h, s.info, s.newT, slot);
  }

  lemma UnreferencedSlots(h: Hashes, info: InfoMap, newT: Table, slot: Slot)
    requires NewOk(h, info, newT) && slot in newT && newT[slot] in info
    ensures NewOk(h, info[newT[slot] := info[newT[slot]].(refCount := info[newT[slot]].refCount - 1)], newT - {slot})
  {
    var id := newT[slot];
    var info', newT' := info[id := info[id].(refCount := info[id].refCount - 1)], newT - {slot};
    forall x | x in newT'
      ensures NewSlotOk(h, info', x, newT'[x])
    {
      assert NewSlotOk(h, info, x, newT[x]);
    }
  }

  /** Reference counts matter to the new table only. */
  lemma RefCountOnly(s: State, id: int, n: int)
    requires id in s.info && RandomOk(s.info, s.rnd) && AddrOk(s.info, s.addr) && IdsOk(s.info, s.next)
    requires TriedOk(s.h, s.info, s.triedT) && CountOk(s.info, s.nNew, s.nTried)
    ensures var info := s.info[id := s.info[id].(refCount := n)];
            && RandomOk(info, s.rnd) && AddrOk(info, s.addr) && IdsOk(info, s.next)
            && TriedOk(s.h, info, s.triedT) && CountOk(info, s.nNew, s.nTried)
  {
    hide RandomOk, AddrOk, IdsOk, TriedOk;
    var info := s.info[id := s.info[id].(refCount := n)];
    IndexesKept(s, id, s.info[id].(refCount := n));
    assert News(info) == News(s.info) && Trieds(info) == Trieds(s.info);
    RefCountTried(s.h, s.info, s.triedT, id, n);
  }

  /** The indexes know addresses and random positions only. */
  lemma IndexesKept(s: State, id: int, e: Info)
    requires id in s.info && RandomOk(s.info, s.rnd) && AddrOk(s.info, s.addr) && IdsOk(s.info, s.next)
    requires e.randomPos == s.info[id].randomPos && e.addr.service == s.info[id].addr.service
    ensures RandomOk(s.info[id := e], s.rnd) && AddrOk(s.info[id := e], s.addr) && IdsOk(s.info[id := e], s.next)
  {}

  lemma RefCountTried(h: Hashes, info: InfoMap, triedT: Table, id: int, n: int)
    requires id in info && TriedOk(h, info, triedT)
    ensures TriedOk(h, info[id := info[id].(refCount := n)], triedT)
  {
    var info' := info[id := info[id].(refCount := n)];
    forall x | x in triedT
      ensures TriedSlotOk(h, info', x, triedT[x])
    {
      assert TriedSlotOk(h, info, x, triedT[x]);
    }
    forall x | x in info' && info'[x].inTried
      ensures InTable(h, info'[x], triedT, x)
    {
      assert InTable(h, info[x], triedT, x);
    }
  }

  lemma UnreferencedRefs(info: InfoMap, newT: Table, pending: set<int>, slot: Slot)
    requires RefsOk(info, newT, pending) && slot in newT && newT[slot] in info
    ensures info[newT[slot]].refCount > 0
    ensures var id := newT[slot];
            RefsOk(info[id := info[id].(refCount := info[id].refCount - 1)], newT - {slot}, pending + {id})
  {
    var id := newT[slot];
    var info', newT' := info[id := info[id].(refCount := info[id].refCount - 1)], newT - {slot};
    assert RefOk(info[id], newT, id, id in pending);
    assert slot in Refs(newT, id);
    assert Refs(newT', id) == Refs(newT, id) - {slot};
    forall x | x in info'
      ensures RefOk(info'[x], newT', x, x in pending + {id})
    {
      assert RefOk(info[x], newT, x, x in pending);
      if x != id {
        assert Refs(newT', x) == Refs(newT, x);
      }
    }
  }

  /** Give an empty slot of the new table to an entry. */
  function Referenced(s: State, slot: Slot, id: int): State
    requires id in s.info
  {
    s.(newT := s.newT[slot := id], info := s.info[id := s.info[id].(refCount := s.info[id].refCount + 1)])
  }

  lemma ReferencedInv(s: State, pending: set<int>, slot: Slot, id: int)
    requires Inv(s, pending) && slot !in s.newT && id in s.info && !s.info[id].inTried
    requires s.info[id].refCount < NEW_BUCKETS_PER_ADDRESS
    requires slot.bucket < NEW_BUCKET_COUNT && slot == s.h.NewSlotIn(s.info[id].addr.service, slot.bucket)
    ensures Inv(Referenced(s, slot, id), pending - {id})
  {
    hide RandomOk, AddrOk, NewOk, TriedOk, CountOk, RefsOk;
    ReferencedRefs(s.info, s.newT, pending, slot, id);
    RefCountOnly(s, id, s.info[id].refCount + 1);
    ReferencedSlots(s.h, s.info, s.newT, slot, id);
  }

  lemma ReferencedSlots(h: Hashes, info: InfoMap, newT: Table, slot: Slot, id: int)
    requires NewOk(h, info, newT) && NewSlotOk(h, info, slot, id)
    ensures NewOk(h, info[id := info[id].(refCount := info[id].refCount + 1)], newT[slot := id])
  {
    var info' := info[id := info[id].(refCount := info[id].refCount + 1)];
    var newT' := newT[slot := id];
    forall x | x in newT'
      ensures NewSlotOk(h, info', x, newT'[x])
    {
      assert x != slot ==> NewSlotOk(h, info, x, newT[x]);
    }
  }

  lemma ReferencedRefs(info: InfoMap, newT: Table, pending: set<int>, slot: Slot, id: int)
    requires RefsOk(info, newT, pending) && slot !in newT && id in info && info[id].refCount < NEW_BUCKETS_PER_ADDRESS
    ensures RefsOk(info[id := info[id].(refCount := info[id].refCount + 1)], newT[slot := id], pending - {id})
  {
    var info', newT' := info[id := info[id].(refCount := info[id].refCount + 1)], newT[slot := id];
    assert RefOk(info[id], newT, id, id in pending);
    assert Refs(newT', id) == Refs(newT, id) + {slot};
    forall x | x in info'
      ensures RefOk(info'[x], newT', x, x in pending - {id})
    {
      assert RefOk(info[x], newT, x, x in pending);
      if x != id {
        assert Refs(newT', x) == Refs(newT, x);
      }
    }
  }

  // ----- between the tables ------------------------------------------------------------------------------------

  /** Put an entry that is in no table into its tried slot. */
  function ToTried(s: State, id: int): State
    requires id in s.info
  {
    s.(triedT := s.triedT[s.h.TriedSlot(s.info[id].addr.service) := id],
       info := s.info[id := s.info[id].(inTried := true)], nTried := s.nTried + 1, nNew := s.nNew - 1)
  }

  lemma ToTriedInv(s: State, pending: set<int>, id: int)
    requires Inv(s, pending) && id in s.info && !s.info[id].inTried && s.info[id].refCount == 0
    requires s.h.TriedSlot(s.info[id].addr.service) !in s.triedT
    ensures Inv(ToTried(s, id), pending - {id})
  {
    hide RandomOk, AddrOk, IdsOk, NewOk, TriedOk, RefsOk, News, Trieds;
    var e := s.info[id].(inTried := true);
    IndexesKept(s, id, e);
    NotReferenced(s.info, s.newT, pending, id);
    MovedTables(s.h, s.info, s.newT, pending, id, e);
    ToTriedTable(s.h, s.info, s.triedT, id);
    MovedCounts(s.info, id, e);
  }

  lemma NotReferenced(info: InfoMap, newT: Table, pending: set<int>, id: int)
    requires RefsOk(info, newT, pending) && id in info && info[id].refCount == 0
    ensures Refs(newT, id) == {}
  {
    assert RefOk(info[id], newT, id, id in pending);
  }

  lemma CountIsRefs(info: InfoMap, newT: Table, pending: set<int>, id: int)
    requires RefsOk(info, newT, pending) && id in info && Refs(newT, id) == {}
    ensures info[id].refCount == 0
  {
    assert RefOk(info[id], newT, id, id in pending);
  }

  /** Take an entry out of the tried table: it is in no table. */
  function FromTried(s: State, id: int): State
    requires id in s.info
  {
    s.(triedT := s.triedT - {s.h.TriedSlot(s.info[id].addr.service)},
       info := s.info[id := s.info[id].(inTried := false)], nTried := s.nTried - 1, nNew := s.nNew + 1)
  }

  lemma FromTriedInv(s: State, pending: set<int>, id: int)
    requires Inv(s, pending) && id in s.info && s.info[id].inTried
    ensures s.info[id].refCount == 0
    ensures Inv(FromTried(s, id), pending + {id})
  {
    hide RandomOk, AddrOk, IdsOk, NewOk, TriedOk, RefsOk, News, Trieds;
    var e := s.info[id].(inTried := false);
    IndexesKept(s, id, e);
    NoRefs(s.h, s.info, s.newT, id);
    CountIsRefs(s.info, s.newT, pending, id);
    MovedTables(s.h, s.info, s.newT, pending, id, e);
    FromTriedTable(s.h, s.info, s.triedT, id);
    MovedCounts(s.info, id, e);
  }

  lemma MovedTables(h: Hashes, info: InfoMap, newT: Table, pending: set<int>, id: int, e: Info)
    requires NewOk(h, info, newT) && RefsOk(info, newT, pending) && id in info
    requires Refs(newT, id) == {} && e == info[id].(inTried := e.inTried)
    ensures NewOk(h, info[id := e], newT)
    ensures RefsOk(info[id := e], newT, if e.inTried then pending - {id} else pending + {id})
  {
    var info' := info[id := e];
    forall s | s in newT
      ensures NewSlotOk(h, info', s, newT[s])
    {
      assert NewSlotOk(h, info, s, newT[s]);
      assert s !in Refs(newT, id);
    }
    forall x | x in info'
      ensures RefOk(info'[x], newT, x, x in if e.inTried then pending - {id} else pending + {id})
    {
      assert RefOk(info[x], newT, x, x in pending);
    }
  }

  lemma MovedCounts(info: InfoMap, id: int, e: Info)
    requires id in info && e.inTried != info[id].inTried
    ensures |News(info[id := e])| == |News(info)| + if e.inTried then -1 else 1
    ensures |Trieds(info[id := e])| == |Trieds(info)| + if e.inTried then 1 else -1
  {
    var info' := info[id := e];
    if e.inTried {
      assert News(info') == News(info) - {id} && Trieds(info') == Trieds(info) + {id};
    } else {
      assert News(info') == News(info) + {id} && Trieds(info') == Trieds(info) - {id};
    }
  }

  lemma ToTriedTable(h: Hashes, info: InfoMap, triedT: Table, id: int)
    requires TriedOk(h, info, triedT) && id in info && !info[id].inTried
    requires h.TriedSlot(info[id].addr.service) !in triedT
    ensures TriedOk(h, info[id := info[id].(inTried := true)], triedT[h.TriedSlot(info[id].addr.service) := id])
  {
    var slot := h.TriedSlot(info[id].addr.service);
    var info', triedT' := info[id := info[id].(inTried := true)], triedT[slot := id];
    forall s | s in triedT'
      ensures TriedSlotOk(h, info', s, triedT'[s])
    {
      assert s != slot ==> TriedSlotOk(h, info, s, triedT[s]);
    }
    forall x | x in info' && info'[x].inTried
      ensures InTable(h, info'[x], triedT', x)
    {
      assert x != id ==> InTable(h, info[x], triedT, x);
    }
  }

  lemma FromTriedTable(h: Hashes, info: InfoMap, triedT: Table, id: int)
    requires TriedOk(h, info, triedT) && id in info && info[id].inTried
    ensures TriedOk(h, info[id := info[id].(inTried := false)], triedT - {h.TriedSlot(info[id].addr.service)})
  {
    var slot := h.TriedSlot(info[id].addr.service);
    var info', triedT' := info[id := info[id].(inTried := false)], triedT - {slot};
    assert InTable(h, info[id], triedT, id);
    forall s | s in triedT'
      ensures TriedSlotOk(h, info', s, triedT'[s])
    {
      assert TriedSlotOk(h, info, s, triedT[s]);
    }
    forall x | x in info' && info'[x].inTried
      ensures InTable(h, info'[x], triedT', x)
    {
      assert InTable(h, info[x], triedT, x);
    }
  }

  /** An entry with a reference is not pending. */
  lemma Settled(s: State, pending: set<int>, id: int)
    requires Inv(s, pending) && id in s.info && s.info[id].refCount >= 1
    ensures Inv(s, pending - {id})
  {
    forall x | x in s.info
      ensures RefOk(s.info[x], s.newT, x, x in pending - {id})
    {
      assert RefOk(s.info[x], s.newT, x, x in pending);
    }
  }

  lemma Pend(s: State, pending: set<int>, id: int)
    requires Inv(s, pending)
    ensures Inv(s, pending + {id})
  {
    forall x | x in s.info
      ensures RefOk(s.info[x], s.newT, x, x in pending + {id})
    {
      assert RefOk(s.info[x], s.newT, x, x in pending);
    }
  }

  /** An entry that occupies a slot has a positive count, so it is neither tried nor without references. */
  lemma Occupant(s: State, pending: set<int>, slot: Slot)
    requires Inv(s, pending) && slot in s.newT
    ensures s.newT[slot] in s.info && !s.info[s.newT[slot]].inTried && s.info[s.newT[slot]].refCount >= 1
    ensures slot.bucket < NEW_BUCKET_COUNT && slot == s.h.NewSlotIn(s.info[s.newT[slot]].addr.service, slot.bucket)
    ensures s.newT[slot] >= 0
  {
    var id := s.newT[slot];
    assert NewSlotOk(s.h, s.info, slot, id);
    assert RefOk(s.info[id], s.newT, id, id in pending);
    assert slot in Refs(s.newT, id);
  }

  lemma TriedOccupant(s: State, pending: set<int>, slot: Slot)
    requires Inv(s, pending) && slot in s.triedT
    ensures s.triedT[slot] in s.info && s.info[s.triedT[slot]].inTried && s.info[s.triedT[slot]].refCount == 0
    ensures slot == s.h.TriedSlot(s.info[s.triedT[slot]].addr.service)
  {
    var id := s.triedT[slot];
    assert TriedSlotOk(s.h, s.info, slot, id);
    FromTriedInv(s, pending, id);
  }

  lemma CountedRefs(s: State, pending: set<int>, id: int)
    requires Inv(s, pending) && id in s.info
    ensures s.info[id].refCount == |Refs(s.newT, id)| <= NEW_BUCKETS_PER_ADDRESS && id >= 0
    ensures !s.info[id].inTried && id !in pending ==> s.info[id].refCount >= 1
  {
    assert RefOk(s.info[id], s.newT, id, id in pending);
  }
}
