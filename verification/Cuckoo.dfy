/**
 * The cuckoo cache (src/cuckoocache.h): eight-way cuckoo insertion with lazy erasure and two live
 * epochs. What is conserved, what can be lost, and how full it can get.
 */
module Cuckoo {
  import opened Basics
  import opened BitFlags

  type uint32 = x: int | 0 <= x < 0x1_0000_0000

  const INVALID: uint32 := 0xFFFF_FFFF

  // ----- counting -----------------------------------------------------------------------------------

  function CountTrue(s: seq<bool>): nat {
    if s == [] then 0 else CountTrue(s[..|s| - 1]) + if s[|s| - 1] then 1 else 0
  }

  lemma {:induction false} CountUpdate(s: seq<bool>, i: nat, v: bool)
    requires i < |s|
    ensures CountTrue(s[i := v]) == CountTrue(s) - (if s[i] then 1 else 0) + (if v then 1 else 0)
  {
    var n := |s| - 1;
    if i == n {
      assert s[i := v][..n] == s[..n];
    } else {
      assert s[i := v][..n] == s[..n][i := v];
      CountUpdate(s[..n], i, v);
    }
  }

  lemma {:induction false} CountNone(s: seq<bool>)
    requires forall i :: 0 <= i < |s| ==> !s[i]
    ensures CountTrue(s) == 0
  {
    if s != [] {
      CountNone(s[..|s| - 1]);
    }
  }

  /** Disjoint flags add up. */
  lemma {:induction false} CountSplit(s: seq<bool>, a: seq<bool>, b: seq<bool>)
    requires |s| == |a| == |b|
    requires forall i :: 0 <= i < |s| ==> (s[i] <==> a[i] || b[i]) && !(a[i] && b[i])
    ensures CountTrue(s) == CountTrue(a) + CountTrue(b)
  {
    if s != [] {
      var n := |s| - 1;
      CountSplit(s[..n], a[..n], b[..n]);
    }
  }

  /** Slots that hold an element of the newest epoch, of the one before, and of either. */
  function Newest(collected: seq<bool>, epoch: seq<bool>): (r: seq<bool>)
    requires |collected| == |epoch|
    ensures |r| == |epoch|
  {
    seq(|epoch|, i requires 0 <= i < |epoch| => !collected[i] && epoch[i])
  }

  function Older(collected: seq<bool>, epoch: seq<bool>): (r: seq<bool>)
    requires |collected| == |epoch|
    ensures |r| == |epoch|
  {
    seq(|epoch|, i requires 0 <= i < |epoch| => !collected[i] && !epoch[i])
  }

  function Kept(collected: seq<bool>): seq<bool> {
    seq(|collected|, i requires 0 <= i < |collected| => !collected[i])
  }

  // ----- where elements may sit -------------------------------------------------------------------------

  /** compute_hashes: the eight slots of an element, each a 32-bit hash scaled to the table size. */
  function Locs<E(!new)>(hash: (E, nat) -> uint32, size: nat, e: E): (locs: seq<nat>)
    requires size > 0
    ensures |locs| == 8
    ensures forall k :: 0 <= k < 8 ==> locs[k] < size
  {
    [Scaled(hash(e, 0), size), Scaled(hash(e, 1), size), Scaled(hash(e, 2), size), Scaled(hash(e, 3), size),
     Scaled(hash(e, 4), size), Scaled(hash(e, 5), size), Scaled(hash(e, 6), size), Scaled(hash(e, 7), size)]
  }

  /** Multiply and shift: a 32-bit number scaled into [0, size). */
  function Scaled(h: uint32, size: nat): (loc: nat)
    requires size > 0
    ensures loc < size
  {
    assert h * size < 0x1_0000_0000 * size;
    h * size / 0x1_0000_0000
  }

  /**
   * The slots are the eight hashes as fractions of 2^32, times the size, rounded down. So a larger hash never selects
   * a smaller slot.
   */
  lemma LocsScaled<E(!new)>(hash: (E, nat) -> uint32, size: nat, e: E, k: nat)
    requires size > 0 && k < 8
    ensures Locs(hash, size, e)[k] * 0x1_0000_0000 <= hash(e, k) * size < (Locs(hash, size, e)[k] + 1) * 0x1_0000_0000
  {
    var x := hash(e, k) * size;
    assert Locs(hash, size, e)[k] == Scaled(hash(e, k), size) == x / 0x1_0000_0000;
  }

  /** Every element other than the default value sits in one of its own slots. */
  ghost predicate Placed<E(!new)>(hash: (E, nat) -> uint32, dflt: E, table: seq<E>) {
    forall i :: 0 <= i < |table| && table[i] != dflt ==> i in Locs(hash, |table|, table[i])
  }

  /** ... and in only one slot of the whole table, collected or not. */
  ghost predicate Unique<E>(dflt: E, table: seq<E>) {
    forall i, j :: 0 <= i < j < |table| && table[i] == table[j] ==> table[i] == dflt
  }

  ghost predicate TableOk<E(!new)>(hash: (E, nat) -> uint32, dflt: E, table: seq<E>) {
    Placed(hash, dflt, table) && Unique(dflt, table)
  }

  /** The cached elements: those in slots that are not marked for collection. */
  ghost function Live<E>(dflt: E, table: seq<E>, collected: seq<bool>): set<E>
    requires |table| == |collected|
  {
    set i | 0 <= i < |table| && !collected[i] && table[i] != dflt :: table[i]
  }

  ghost predicate Absent<E>(dflt: E, table: seq<E>, e: E) {
    e == dflt || e !in table
  }

  /** An element that is in none of its own slots is nowhere in the table. */
  lemma NotInSlots<E(!new)>(hash: (E, nat) -> uint32, dflt: E, table: seq<E>, e: E)
    requires table != [] && Placed(hash, dflt, table)
    requires forall k :: 0 <= k < 8 ==> table[Locs(hash, |table|, e)[k]] != e
    ensures Absent(dflt, table, e)
  {
    hide Locs;
    forall i | 0 <= i < |table| && e != dflt
      ensures table[i] != e
    {}
  }

  /** Writing an absent element into one of its slots keeps the table well placed; what was there is gone from it. */
  lemma WriteOk<E(!new)>(hash: (E, nat) -> uint32, dflt: E, table: seq<E>, loc: nat, e: E)
    requires TableOk(hash, dflt, table) && loc < |table| && loc in Locs(hash, |table|, e)
    requires Absent(dflt, table, e)
    ensures TableOk(hash, dflt, table[loc := e])
    ensures table[loc] != e ==> Absent(dflt, table[loc := e], table[loc])
  {
    var table' := table[loc := e];
    forall i, j | 0 <= i < j < |table'| && table'[i] == table'[j]
      ensures table'[i] == dflt
    {
      if i != loc && j != loc {
        assert table[i] == table[j];
      }
    }
  }

  /** Displacing a live element swaps it for the new one in the live set. */
  lemma SwapLive<E(!new)>(dflt: E, table: seq<E>, collected: seq<bool>, loc: nat, e: E)
    requires |table| == |collected| && loc < |table| && !collected[loc] && Unique(dflt, table)
    ensures Live(dflt, table[loc := e], collected) == Live(dflt, table, collected) - {table[loc]} + ({e} - {dflt})
  {
    var table' := table[loc := e];
    forall x | x in Live(dflt, table, collected) - {table[loc]} + ({e} - {dflt})
      ensures x in Live(dflt, table', collected)
    {
      if x == e {
        assert table'[loc] == x;
      } else {
        var i :| 0 <= i < |table| && !collected[i] && table[i] == x;
        assert table'[i] == x;
      }
    }
    forall x | x in Live(dflt, table', collected)
      ensures x in Live(dflt, table, collected) - {table[loc]} + ({e} - {dflt})
    {
      var i :| 0 <= i < |table'| && !collected[i] && table'[i] == x && x != dflt;
      if i != loc {
        assert table[i] == x;
      }
    }
  }

  /** Filling a collected slot adds to the live set. */
  lemma FillLive<E(!new)>(dflt: E, table: seq<E>, collected: seq<bool>, loc: nat, e: E)
    requires |table| == |collected| && loc < |table| && (collected[loc] || table[loc] == e)
    ensures Live(dflt, table[loc := e], collected[loc := false]) == Live(dflt, table, collected) + ({e} - {dflt})
  {
    var table', collected' := table[loc := e], collected[loc := false];
    forall x | x in Live(dflt, table, collected) + ({e} - {dflt})
      ensures x in Live(dflt, table', collected')
    {
      if x == e {
        assert table'[loc] == x;
      } else {
        var i :| 0 <= i < |table| && !collected[i] && table[i] == x;
        assert table'[i] == x && !collected'[i];
      }
    }
    forall x | x in Live(dflt, table', collected')
      ensures x in Live(dflt, table, collected) + ({e} - {dflt})
    {
      var i :| 0 <= i < |table'| && !collected'[i] && table'[i] == x && x != dflt;
      if i != loc {
        assert table[i] == x;
      }
    }
  }

  /** Writing into a slot that does not count changes nothing. */
  lemma WriteDead<E(!new)>(dflt: E, table: seq<E>, collected: seq<bool>, loc: nat, e: E)
    requires |table| == |collected| && loc < |table| && collected[loc]
    ensures Live(dflt, table[loc := e], collected) == Live(dflt, table, collected)
  {
    var table' := table[loc := e];
    forall x | x in Live(dflt, table, collected)
      ensures x in Live(dflt, table', collected)
    {
      var i :| 0 <= i < |table| && !collected[i] && table[i] == x && x != dflt;
      assert table'[i] == x;
    }
  }

  // ----- epochs ---------------------------------------------------------------------------------------------

  /** The slots that do not hold an element of the newest epoch. */
  ghost function Stale(collected: seq<bool>, epoch: seq<bool>): (r: seq<bool>)
    requires |collected| == |epoch|
    ensures |r| == |epoch|
  {
    seq(|epoch|, i requires 0 <= i < |epoch| => collected[i] || !epoch[i])
  }

  lemma StaleUpdate(collected: seq<bool>, epoch: seq<bool>, loc: nat, v: bool)
    requires |collected| == |epoch| && loc < |epoch|
    ensures Stale(collected[loc := false], epoch[loc := v]) == Stale(collected, epoch)[loc := !v]
  {}

  /** Filling a slot whose element is not of the newest epoch. */
  lemma FillNewest<E(!new)>(dflt: E, table: seq<E>, collected: seq<bool>, epoch: seq<bool>, loc: nat, e: E, v: bool)
    requires |table| == |collected| == |epoch| && loc < |table|
    requires Stale(collected, epoch)[loc] || (v && table[loc] == e)
    ensures Live(dflt, table[loc := e], Stale(collected[loc := false], epoch[loc := v])) ==
            Live(dflt, table, Stale(collected, epoch)) + if v then {e} - {dflt} else {}
  {
    hide Live;
    var stale := Stale(collected, epoch);
    StaleUpdate(collected, epoch, loc, v);
    if v {
      FillLive(dflt, table, stale, loc, e);
    } else {
      WriteDead(dflt, table, stale, loc, e);
      assert stale[loc := true] == stale;
    }
  }

  /** Swapping an element and its epoch with those of a slot: every element keeps its epoch. */
  lemma SwapNewest<E(!new)>(dflt: E, table: seq<E>, collected: seq<bool>, epoch: seq<bool>, loc: nat, e: E, v: bool)
    requires |table| == |collected| == |epoch| && loc < |table| && !collected[loc] && Unique(dflt, table) && Absent(dflt, table, e)
    ensures Live(dflt, table[loc := e], Stale(collected, epoch[loc := v])) + (if epoch[loc] then {table[loc]} - {dflt} else {}) ==
            Live(dflt, table, Stale(collected, epoch)) + if v then {e} - {dflt} else {}
  {
    var stale := Stale(collected, epoch);
    assert collected[loc := false] == collected;
    StaleUpdate(collected, epoch, loc, v);
    if !epoch[loc] {
      FillNewest(dflt, table, collected, epoch, loc, e, v);
    } else if v {
      assert stale[loc := false] == stale;
      SwapLive(dflt, table, stale, loc, e);
      assert table[loc] != dflt ==> table[loc] in Live(dflt, table, stale);
    } else {
      WriteDead(dflt, table, stale[loc := true], loc, e);
      EraseLive(dflt, table, stale, loc);
      if table[loc] == dflt {
        EraseDefault(dflt, table, stale, loc);
      }
      assert table[loc] != dflt ==> table[loc] in Live(dflt, table, stale);
    }
  }

  lemma EraseDefault<E(!new)>(dflt: E, table: seq<E>, collected: seq<bool>, loc: nat)
    requires |table| == |collected| && loc < |table| && table[loc] == dflt
    ensures Live(dflt, table, collected[loc := true]) == Live(dflt, table, collected)
  {
    var collected' := collected[loc := true];
    forall x | x in Live(dflt, table, collected)
      ensures x in Live(dflt, table, collected')
    {
      var i :| 0 <= i < |table| && !collected[i] && table[i] == x && x != dflt;
      assert !collected'[i];
    }
  }

  /** The documented ceiling on the newest epoch. */
  function EpochBound(epochSize: nat): nat {
    epochSize + Max(1, epochSize / 16)
  }

  /** Each epoch stays under its ceiling, with room for as many inserts as the counter still allows. */
  ghost predicate EpochsOk(collected: seq<bool>, epoch: seq<bool>, counter: nat, epochSize: nat)
    requires |collected| == |epoch|
  {
    && CountTrue(Newest(collected, epoch)) + counter <= EpochBound(epochSize)
    && CountTrue(Older(collected, epoch)) <= EpochBound(epochSize)
  }

  /** Ages of the kept slots after one slot is (re)filled with the given epoch. */
  lemma FillCounts(collected: seq<bool>, epoch: seq<bool>, loc: nat, v: bool)
    requires |collected| == |epoch| && loc < |epoch|
    ensures var c, p := collected[loc := false], epoch[loc := v];
            && CountTrue(Newest(c, p)) == CountTrue(Newest(collected, epoch))
                 - (if Newest(collected, epoch)[loc] then 1 else 0) + (if v then 1 else 0)
            && CountTrue(Older(c, p)) == CountTrue(Older(collected, epoch))
                 - (if Older(collected, epoch)[loc] then 1 else 0) + (if v then 0 else 1)
  {
    var c, p := collected[loc := false], epoch[loc := v];
    CountUpdate(Newest(collected, epoch), loc, v);
    CountUpdate(Older(collected, epoch), loc, !v);
    assert Newest(c, p) == Newest(collected, epoch)[loc := v];
    assert Older(c, p) == Older(collected, epoch)[loc := !v];
  }

  lemma EraseCounts(collected: seq<bool>, epoch: seq<bool>, loc: nat)
    requires |collected| == |epoch| && loc < |epoch|
    ensures CountTrue(Newest(collected[loc := true], epoch)) <= CountTrue(Newest(collected, epoch))
    ensures CountTrue(Older(collected[loc := true], epoch)) <= CountTrue(Older(collected, epoch))
  {
    CountUpdate(Newest(collected, epoch), loc, false);
    CountUpdate(Older(collected, epoch), loc, false);
    assert Newest(collected[loc := true], epoch) == Newest(collected, epoch)[loc := false];
    assert Older(collected[loc := true], epoch) == Older(collected, epoch)[loc := false];
  }

  /** What ageing leaves: the old epoch is collected, the newest becomes the old one. */
  ghost predicate Aged(collected: seq<bool>, epoch: seq<bool>, collected': seq<bool>, epoch': seq<bool>)
    requires |collected| == |epoch| == |collected'| == |epoch'|
  {
    forall i :: 0 <= i < |epoch| ==> !epoch'[i] && (collected'[i] <==> collected[i] || !epoch[i])
  }

  lemma AgedCounts(collected: seq<bool>, epoch: seq<bool>, collected': seq<bool>, epoch': seq<bool>)
    requires |collected| == |epoch| == |collected'| == |epoch'| && Aged(collected, epoch, collected', epoch')
    ensures CountTrue(Newest(collected', epoch')) == 0
    ensures CountTrue(Older(collected', epoch')) == CountTrue(Newest(collected, epoch))
  {
    CountNone(Newest(collected', epoch'));
    assert Older(collected', epoch') == Newest(collected, epoch);
  }

  /** The load bound: never more than two epochs' worth of kept slots. */
  lemma LoadBound(collected: seq<bool>, epoch: seq<bool>, counter: nat, epochSize: nat)
    requires |collected| == |epoch| && EpochsOk(collected, epoch, counter, epochSize)
    ensures CountTrue(Kept(collected)) <= 2 * EpochBound(epochSize)
  {
    CountSplit(Kept(collected), Newest(collected, epoch), Older(collected, epoch));
  }

  lemma {:induction false} LiveSize<E(!new)>(dflt: E, table: seq<E>, collected: seq<bool>)
    requires |table| == |collected|
    ensures |Live(dflt, table, collected)| <= CountTrue(Kept(collected))
  {
    if table == [] {
      assert Live(dflt, table, collected) == {};
    } else {
      var n := |table| - 1;
      LiveSize(dflt, table[..n], collected[..n]);
      var rest := Live(dflt, table[..n], collected[..n]);
      assert Kept(collected)[..n] == Kept(collected[..n]);
      if !collected[n] {
        assert Live(dflt, table, collected) <= rest + {table[n]};
        SubsetSize(Live(dflt, table, collected), rest + {table[n]});
      } else {
        assert Live(dflt, table, collected) == rest;
      }
    }
  }

  /** The first displacement hits the second slot: the search for the invalid index runs off the end. */
  lemma FirstDisplacement<E(!new)>(hash: (E, nat) -> uint32, size: nat, e: E)
    requires 0 < size <= INVALID
    ensures (1 + IndexOf(Locs(hash, size, e), INVALID)) % 8 == 1
  {
    var locs := Locs(hash, size, e);
    assert forall k :: 0 <= k < 8 ==> locs[k] < size;
  }

  // ----- the cache ------------------------------------------------------------------------------------------------

  /** 45 percent of the size, with a 32-bit product: right exactly as long as that does not wrap around. */
  function EpochSize(size: nat): (epoch: nat)
    requires size < 0x1_0000_0000
    ensures epoch == Max(1, 45 * size / 100) <==> size <= 95_443_717
    ensures 1 <= epoch <= Max(1, 45 * size / 100)
  {
    Max(1, 45 * size % 0x1_0000_0000 / 100)
  }

  class Cache<E(==, !new)> {
    /** hash_function<k>(e), and the value of a default-constructed element. */
    const hash: (E, nat) -> uint32
    const dflt: E
    const size: nat
    const depthLimit: nat
    const epochSize: nat
    const flags: BitPackedFlags
    var table: seq<E>
    var epochFlags: seq<bool>
    var epochHeuristicCounter: nat

    ghost predicate Valid()
      reads this, flags, flags.mem
    {
      && flags.Valid() && 2 <= size && flags.n == |table| == |epochFlags| == size
      && TableOk(hash, dflt, table)
      && EpochsOk(flags.Bits(), epochFlags, epochHeuristicCounter, epochSize)
    }

    ghost function Contents(): set<E>
      requires flags.Valid() && flags.n == |table|
      reads this, flags, flags.mem
    {
      Live(dflt, table, flags.Bits())
    }

    /** The cached elements of the newest epoch. */
    ghost function NewestContents(): set<E>
      requires flags.Valid() && flags.n == |table| == |epochFlags|
      reads this, flags, flags.mem
    {
      Live(dflt, table, Stale(flags.Bits(), epochFlags))
    }

    /** Is the old epoch collected at the next insert: no scan is put off, and the newest epoch is full? */
    ghost predicate AgesNext()
      requires flags.Valid() && flags.n == |epochFlags|
      reads this, flags, flags.mem
    {
      epochHeuristicCounter == 0 && CountTrue(Newest(flags.Bits(), epochFlags)) >= epochSize
    }

    /**
     * The constructor and setup. The depth limit, log2 of the size computed in floating point, is a parameter.
     * An epoch is 45 percent of the size exactly up to the size at which the 32-bit product wraps around.
     */
    constructor (hash: (E, nat) -> uint32, dflt: E, newSize: uint32, depthLimit: nat)
      ensures size == Max(2, newSize) && (Valid() <==> size <= LARGEST)
      ensures Valid() ==> Contents() == {} && fresh(flags) && fresh(flags.mem)
      ensures epochSize == EpochSize(size)
      ensures this.hash == hash && this.dflt == dflt && this.depthLimit == depthLimit
    {
      hide EpochSize;
      this.hash, this.dflt, this.depthLimit := hash, dflt, depthLimit;
      var n: nat := Max(2, newSize);
      size := n;
      var f := new BitPackedFlags(n);
      flags := f;
      table := seq(n, i => dflt);
      epochFlags := seq(n, i => false);
      var es := EpochSize(n);
      epochSize, epochHeuristicCounter := es, es;
      new;
      if n <= LARGEST {
        CountNone(Newest(flags.Bits(), epochFlags));
        CountNone(Older(flags.Bits(), epochFlags));
      }
    }

    /** In every reachable state the newest epoch and the whole cache respect their ceilings. */
    lemma ContentsBound()
      requires Valid()
      ensures CountTrue(Newest(flags.Bits(), epochFlags)) <= epochSize + Max(1, epochSize / 16)
      ensures |Contents()| <= CountTrue(Kept(flags.Bits())) <= 2 * (epochSize + Max(1, epochSize / 16))
    {
      LoadBound(flags.Bits(), epochFlags, epochHeuristicCounter, epochSize);
      LiveSize(dflt, table, flags.Bits());
    }

    /** Room for one more insert in the newest epoch. */
    ghost predicate HasRoom()
      requires flags.Valid() && flags.n == |epochFlags|
      reads this, flags, flags.mem
    {
      EpochsOk(flags.Bits(), epochFlags, epochHeuristicCounter + 1, epochSize)
    }

    /** Count the kept slots of the newest epoch. */
    method CountNewest() returns (count: nat)
      requires flags.Valid() && flags.n == |epochFlags| == size
      ensures count == CountTrue(Newest(flags.Bits(), epochFlags))
    {
      count := 0;
      ghost var newest := Newest(flags.Bits(), epochFlags);
      for i := 0 to size
        invariant count == CountTrue(newest[..i])
      {
        var c := flags.BitIsSet(i);
        count := count + if epochFlags[i] && !c then 1 else 0;
        assert newest[..i + 1][..i] == newest[..i];
      }
      assert newest[..size] == newest;
    }

    /** Collect the old epoch and let the newest one become it. */
    method Age()
      requires flags.Valid() && flags.n == |epochFlags| == size
      modifies this`epochFlags, flags.mem
      ensures flags.Valid() && |epochFlags| == size
      ensures Aged(old(flags.Bits()), old(epochFlags), flags.Bits(), epochFlags)
    {
      ghost var bits, epoch := flags.Bits(), epochFlags;
      for i := 0 to size
        invariant flags.Valid() && |epochFlags| == size
        invariant forall j :: i <= j < size ==> epochFlags[j] == epoch[j] && flags.Bits()[j] == bits[j]
        invariant forall j :: 0 <= j < i ==> !epochFlags[j] && (flags.Bits()[j] <==> bits[j] || !epoch[j])
      {
        if epochFlags[i] {
          epochFlags := epochFlags[i := false];
        } else {
          flags.BitSet(i);
        }
      }
    }

    /** epoch_check: afterwards there is room for one insert, and nothing of the newest epoch was dropped. */
    method EpochCheck()
      requires Valid()
      modifies this`epochFlags, this`epochHeuristicCounter, flags.mem
      ensures flags.Valid() && |epochFlags| == size && HasRoom()
      ensures if old(AgesNext()) then Aged(old(flags.Bits()), old(epochFlags), flags.Bits(), epochFlags)
              else flags.Bits() == old(flags.Bits()) && epochFlags == old(epochFlags)
      ensures var counter, unused := old(epochHeuristicCounter), old(CountTrue(Newest(flags.Bits(), epochFlags)));
              if counter > 0 then epochHeuristicCounter == counter - 1
              else if unused >= epochSize then epochHeuristicCounter == epochSize
              else epochHeuristicCounter >= 1 && epochHeuristicCounter >= epochSize / 16 && epochHeuristicCounter >= epochSize - unused &&
                   epochHeuristicCounter in {1, epochSize / 16, epochSize - unused}
    {
      hide TableOk;
      if epochHeuristicCounter != 0 {
        epochHeuristicCounter := epochHeuristicCounter - 1;
        return;
      }
      var unused := CountNewest();
      if unused >= epochSize {
        ghost var bits, epoch := flags.Bits(), epochFlags;
        Age();
        AgedCounts(bits, epoch, flags.Bits(), epochFlags);
        epochHeuristicCounter := epochSize;
      } else {
        epochHeuristicCounter := Max(1, Max(epochSize / 16, epochSize - unused));
      }
    }

    /** The first of the slots that holds e, or 8. */
    method FirstMatch(locs: seq<nat>, e: E) returns (k: nat)
      requires |locs| == 8 && forall j :: 0 <= j < 8 ==> locs[j] < |table|
      ensures k <= 8 && (k < 8 ==> table[locs[k]] == e)
      ensures forall j :: 0 <= j < k ==> table[locs[j]] != e
    {
      k := 0;
      while k < 8
        invariant k <= 8 && forall j :: 0 <= j < k ==> table[locs[j]] != e
      {
        if table[locs[k]] == e {
          return;
        }
        k := k + 1;
      }
    }

    /** The first of the slots that may be overwritten, or 8. */
    method FirstCollected(locs: seq<nat>) returns (k: nat)
      requires flags.Valid() && |locs| == 8 && forall j :: 0 <= j < 8 ==> locs[j] < flags.n
      ensures k <= 8 && (k < 8 ==> flags.Bits()[locs[k]])
      ensures forall j :: 0 <= j < k ==> !flags.Bits()[locs[j]]
    {
      k := 0;
      while k < 8
        invariant k <= 8 && forall j :: 0 <= j < k ==> !flags.Bits()[locs[j]]
      {
        var c := flags.BitIsSet(locs[k]);
        if c {
          return;
        }
        k := k + 1;
      }
    }

    /** contains: found iff stored, collected or not; erasing only marks the slot. */
    method Contains(e: E, erase: bool) returns (found: bool)
      requires Valid()
      modifies flags.mem
      ensures Valid()
      ensures e != dflt ==> (found <==> e in table)
      ensures !erase || !found ==> flags.Bits() == old(flags.Bits())
      ensures erase && e != dflt ==> Contents() == old(Contents()) - {e}
      ensures found <==> exists k :: 0 <= k < 8 && table[Locs(hash, size, e)[k]] == e
    {
      hide EpochsOk;
      var locs := Locs(hash, size, e);
      var k := FirstMatch(locs, e);
      found := k < 8;
      ghost var bits := flags.Bits();
      if found {
        if erase {
          EraseEpochs(bits, epochFlags, locs[k], epochHeuristicCounter, epochSize);
          EraseLive(dflt, table, bits, locs[k]);
          flags.BitSet(locs[k]);
        }
      } else {
        NotInSlots(hash, dflt, table, e);
        assert e != dflt ==> Contents() - {e} == Contents();
      }
    }

    /** Erasing an element does not hide it from the next look. */
    method InsertEraseContains(e: E) returns (found: bool, again: bool)
      requires Valid()
      modifies this`table, this`epochFlags, this`epochHeuristicCounter, flags.mem
      ensures Valid() && found == again
    {
      hide EpochsOk, TableOk, Locs, Inserted;
      ghost var kept, lost, d;
      kept, lost, d := Insert(e);
      found := Contains(e, true);
      again := Contains(e, false);
    }

    /** Keep what has been inserted before: refresh its slot. */
    method Refresh(loc: nat, e: E)
      requires flags.Valid() && 2 <= size && loc < size && flags.n == |table| == |epochFlags| == size && HasRoom()
      requires table[loc] == e && TableOk(hash, dflt, table)
      modifies this`epochFlags, flags.mem
      ensures Valid() && Contents() == old(Contents()) + Carried(dflt, e, true)
      ensures NewestContents() == old(NewestContents()) + Carried(dflt, e, true)
    {
      hide TableOk, Live;
      FillNewest(dflt, table, flags.Bits(), epochFlags, loc, e, true);
      FillCounts(flags.Bits(), epochFlags, loc, true);
      FillLive(dflt, table, flags.Bits(), loc, e);
      assert table[loc := e] == table;
      flags.BitUnset(loc);
      epochFlags := epochFlags[loc := true];
    }

    /** Put e into a slot that may be overwritten. */
    method Place(loc: nat, e: E, epoch: bool)
      requires flags.Valid() && loc < size && flags.n == |table| == |epochFlags| == size
      requires flags.Bits()[loc] && TableOk(hash, dflt, table) && loc in Locs(hash, size, e) && Absent(dflt, table, e)
      modifies this`table, this`epochFlags, flags.mem
      ensures flags.Valid() && |table| == |epochFlags| == size && TableOk(hash, dflt, table)
      ensures table == old(table)[loc := e]
      ensures Contents() == old(Contents()) + Carried(dflt, e, true)
      ensures NewestContents() == old(NewestContents()) + Carried(dflt, e, epoch)
      ensures CountTrue(Newest(flags.Bits(), epochFlags)) == old(CountTrue(Newest(flags.Bits(), epochFlags))) + if epoch then 1 else 0
      ensures CountTrue(Older(flags.Bits(), epochFlags)) == old(CountTrue(Older(flags.Bits(), epochFlags))) + if epoch then 0 else 1
    {
      hide TableOk, Live;
      FillCounts(flags.Bits(), epochFlags, loc, epoch);
      FillNewest(dflt, table, flags.Bits(), epochFlags, loc, e, epoch);
      FillLive(dflt, table, flags.Bits(), loc, e);
      WriteOk(hash, dflt, table, loc, e);
      table := table[loc := e];
      flags.BitUnset(loc);
      epochFlags := epochFlags[loc := epoch];
    }

    /** Swap e and its epoch with what is in a slot that must be kept. */
    method Displace(loc: nat, e: E, epoch: bool) returns (e': E, epoch': bool)
      requires flags.Valid() && loc < size && flags.n == |table| == |epochFlags| == size
      requires !flags.Bits()[loc] && TableOk(hash, dflt, table) && loc in Locs(hash, size, e) && Absent(dflt, table, e)
      modifies this`table, this`epochFlags
      ensures |table| == |epochFlags| == size && TableOk(hash, dflt, table)
      ensures e' == old(table)[loc] && table == old(table)[loc := e] && Absent(dflt, table, e')
      ensures Contents() + Carried(dflt, e', true) == old(Contents()) + Carried(dflt, e, true)
      ensures NewestContents() + Carried(dflt, e', epoch') == old(NewestContents()) + Carried(dflt, e, epoch)
      ensures CountTrue(Newest(flags.Bits(), epochFlags)) + (if epoch' then 1 else 0) ==
              old(CountTrue(Newest(flags.Bits(), epochFlags))) + if epoch then 1 else 0
      ensures CountTrue(Older(flags.Bits(), epochFlags)) + (if epoch' then 0 else 1) ==
              old(CountTrue(Older(flags.Bits(), epochFlags))) + if epoch then 0 else 1
    {
      hide TableOk;
      ghost var bits := flags.Bits();
      assert Unique(dflt, table) by { TableUnique(hash, dflt, table); }
      FillCounts(bits, epochFlags, loc, epoch);
      SwapNewest(dflt, table, bits, epochFlags, loc, e, epoch);
      SwapLive(dflt, table, bits, loc, e);
      WriteOk(hash, dflt, table, loc, e);
      assert bits[loc := false] == bits;
      e', epoch' := table[loc], epochFlags[loc];
      assert e' != dflt ==> e' in Live(dflt, table, bits);
      assert table[loc] == e ==> table[loc := e] == table;
      table := table[loc := e];
      epochFlags := epochFlags[loc := epoch];
    }

    /**
     * insert: apart from the old epoch, which is collected when the newest is full, at most one cached
     * element is lost, possibly e itself; everything else stays cached and in its epoch, and e is in the newest.
     */
    method Insert(e: E) returns (ghost kept: set<E>, ghost lost: set<E>, ghost d: nat)
      requires Valid()
      modifies this`table, this`epochFlags, this`epochHeuristicCounter, flags.mem
      ensures Valid()
      ensures kept == old(if AgesNext() then NewestContents() else Contents())
      ensures NewestContents() == (if old(AgesNext()) then {} else old(NewestContents())) + Carried(dflt, e, true) - lost
      ensures |lost| <= 1
      ensures Contents() == kept + Carried(dflt, e, true) - lost
      ensures e != dflt && e in old(table) ==> lost == {}
      ensures if exists k :: 0 <= k < 8 && old(table)[Locs(hash, size, e)[k]] == e then table == old(table)
              else Inserted(hash, old(table), old(if AgesNext() then Stale(flags.Bits(), epochFlags) else flags.Bits()), e, depthLimit, d, table, lost)
      ensures depthLimit > 0 && (exists k :: 0 <= k < 8 && old(flags.Bits())[Locs(hash, size, e)[k]]) ==> lost == {}
      ensures depthLimit == 1 && e != dflt ==> e !in lost
    {
      hide TableOk, EpochsOk, Live, Locs, Stale, CountTrue, Carried, Newest, Inserted;
      EpochCheck();
      kept := Contents();
      if old(AgesNext()) {
        AgedContents(dflt, table, old(flags.Bits()), old(epochFlags), flags.Bits(), epochFlags);
      }
      lost, d := {}, 0;
      var locs := Locs(hash, size, e);
      var k := FirstMatch(locs, e);
      if k < 8 {
        Refresh(locs[k], e);
        NothingDropped(Contents());
        NothingDropped(NewestContents());
        return;
      }
      assert Absent(dflt, table, e) by { PlacedIn(hash, dflt, table); NotInSlots(hash, dflt, table, e); }
      lost, d := PlaceOrDrop(e, locs);
    }

    /** The displacement loop of insert. */
    method PlaceOrDrop(e: E, slots: seq<nat>) returns (ghost lost: set<E>, ghost d: nat)
      requires flags.Valid() && 2 <= size && flags.n == |table| == |epochFlags| == size && HasRoom()
      requires TableOk(hash, dflt, table) && slots == Locs(hash, size, e) && Absent(dflt, table, e)
      modifies this`table, this`epochFlags, flags.mem
      ensures Valid() && |lost| <= 1
      ensures Contents() == old(Contents()) + Carried(dflt, e, true) - lost
      ensures NewestContents() == old(NewestContents()) + Carried(dflt, e, true) - lost
      ensures Inserted(hash, old(table), old(flags.Bits()), e, depthLimit, d, table, lost)
      ensures depthLimit > 0 && (exists k :: 0 <= k < 8 && old(flags.Bits())[slots[k]]) ==> lost == {}
      ensures depthLimit == 1 && e != dflt ==> e !in lost
    {
      hide TableOk, EpochsOk, Live, Locs, CountTrue, Newest, Older, EpochsRoom, FlagsOf, Stale, Carried, NoRoom, Walk;
      ghost var start := table;
      WalkStart(hash, start, e);
      NoRoomYet(hash, start, flags.Bits(), e);
      ghost var n0, o0 := CountTrue(Newest(flags.Bits(), epochFlags)), CountTrue(Older(flags.Bits(), epochFlags));
      RoomOf(flags.Bits(), epochFlags, epochHeuristicCounter, epochSize);
      lost := {};
      var lastLoc: nat, lastEpoch := INVALID, true;
      var cur, locs := e, slots;
      var depth := 0;
      while depth < depthLimit
        invariant flags.Valid() && |table| == |epochFlags| == size && TableOk(hash, dflt, table)
        invariant locs == Locs(hash, size, cur) && Absent(dflt, table, cur)
        invariant Contents() + Carried(dflt, cur, true) == old(Contents()) + Carried(dflt, e, true)
        invariant NewestContents() + Carried(dflt, cur, lastEpoch) == old(NewestContents()) + Carried(dflt, e, true)
        invariant CountTrue(Newest(flags.Bits(), epochFlags)) + (if lastEpoch then 1 else 0) == n0 + 1
        invariant CountTrue(Older(flags.Bits(), epochFlags)) + (if lastEpoch then 0 else 1) == o0
        invariant depth <= depthLimit && flags.Bits() == old(flags.Bits()) && (depth == 0 ==> cur == e)
        invariant Walk(hash, start, e, depth) == Hand(table, cur, lastLoc) && NoRoom(hash, start, old(flags.Bits()), e, depth)
        invariant depth > 0 ==> forall k :: 0 <= k < 8 ==> !old(flags.Bits())[slots[k]]
        invariant depth == 1 && e != dflt ==> cur != e
      {
        var k := FirstCollected(locs);
        if k < 8 {
          d := depth;
          Place(locs[k], cur, lastEpoch);
          NothingDropped(Contents());
          NothingDropped(NewestContents());
          EpochsFilled(flags.Bits(), epochFlags, n0, o0, epochHeuristicCounter, epochSize);
          return;
        }
        NoRoomNext(hash, start, flags.Bits(), e, depth);
        WalkNext(hash, start, e, depth);
        lastLoc := locs[(1 + IndexOf(locs, lastLoc)) % 8];
        cur, lastEpoch := Displace(lastLoc, cur, lastEpoch);
        locs := Locs(hash, size, cur);
        depth := depth + 1;
      }
      // Out of depth: the element carried last is dropped.
      lost, d := {cur}, depth;
      AbsentNotLive(dflt, table, flags.Bits(), cur);
      AbsentNotLive(dflt, table, Stale(flags.Bits(), epochFlags), cur);
      LastDropped(dflt, Contents(), cur, true);
      LastDropped(dflt, NewestContents(), cur, lastEpoch);
      EpochsFilled(flags.Bits(), epochFlags, n0, o0, epochHeuristicCounter, epochSize);
    }
  }

  // ----- the chain of displacements -------------------------------------------------------------------------------

  /** The table, the element in hand and the slot it was taken from. */
  datatype Hand<E> = Hand(table: seq<E>, cur: E, loc: nat)

  /** After d displacements, each of which puts the element in hand into the slot after the one it came from. */
  ghost function Walk<E(!new)>(hash: (E, nat) -> uint32, table: seq<E>, e: E, d: nat): (h: Hand<E>)
    requires table != []
    ensures |h.table| == |table|
  {
    if d == 0 then Hand(table, e, INVALID) else
      var h := Walk(hash, table, e, d - 1);
      var locs := Locs(hash, |table|, h.cur);
      var loc := locs[(1 + IndexOf(locs, h.loc)) % 8];
      Hand(h.table[loc := h.cur], h.table[loc], loc)
  }

  /** The first slot that may be overwritten. */
  ghost predicate FirstFree(collected: seq<bool>, locs: seq<nat>, k: nat) {
    k <= |locs| && (k < |locs| ==> locs[k] < |collected| && collected[locs[k]]) && forall j :: 0 <= j < k ==> locs[j] < |collected| && !collected[locs[j]]
  }

  /** None of the first d elements in hand has a slot that may be overwritten. */
  ghost predicate NoRoom<E(!new)>(hash: (E, nat) -> uint32, table: seq<E>, collected: seq<bool>, e: E, d: nat)
    requires table != []
  {
    forall i: nat :: i < d ==> FirstFree(collected, Locs(hash, |table|, Walk(hash, table, e, i).cur), 8)
  }

  /**
   * d displacements until an element finds a free slot and goes into its first one, or until the limit is reached and the
   * element in hand is lost.
   */
  ghost predicate Inserted<E(!new)>(hash: (E, nat) -> uint32, table: seq<E>, collected: seq<bool>, e: E, limit: nat, d: nat,
                                    table': seq<E>, lost: set<E>)
    requires table != []
  {
    var h := Walk(hash, table, e, d);
    && d <= limit && NoRoom(hash, table, collected, e, d)
    && if d == limit then table' == h.table && lost == {h.cur}
       else lost == {} && exists k: nat :: k < 8 && FirstFree(collected, Locs(hash, |table|, h.cur), k) && table' == h.table[Locs(hash, |table|, h.cur)[k] := h.cur]
  }

  lemma WalkStart<E(!new)>(hash: (E, nat) -> uint32, table: seq<E>, e: E)
    requires table != []
    ensures Walk(hash, table, e, 0) == Hand(table, e, INVALID)
  {}

  lemma WalkNext<E(!new)>(hash: (E, nat) -> uint32, table: seq<E>, e: E, d: nat)
    requires table != []
    ensures var h := Walk(hash, table, e, d);
            var locs := Locs(hash, |table|, h.cur);
            var loc := locs[(1 + IndexOf(locs, h.loc)) % 8];
            Walk(hash, table, e, d + 1) == Hand(h.table[loc := h.cur], h.table[loc], loc)
  {
    hide Locs;
  }

  lemma NoRoomYet<E(!new)>(hash: (E, nat) -> uint32, table: seq<E>, collected: seq<bool>, e: E)
    requires table != []
    ensures NoRoom(hash, table, collected, e, 0)
  {}

  lemma NoRoomNext<E(!new)>(hash: (E, nat) -> uint32, table: seq<E>, collected: seq<bool>, e: E, d: nat)
    requires table != [] && NoRoom(hash, table, collected, e, d) && FirstFree(collected, Locs(hash, |table|, Walk(hash, table, e, d).cur), 8)
    ensures NoRoom(hash, table, collected, e, d + 1)
  {
    hide Walk, FirstFree, Locs;
  }

  /** An element on its way to a slot, if it is of interest. */
  ghost function Carried<E>(dflt: E, e: E, counts: bool): set<E> {
    if counts then {e} - {dflt} else {}
  }

  lemma NothingDropped<E>(s: set<E>)
    ensures s - {} == s
  {}

  lemma LastDropped<E>(dflt: E, s: set<E>, e: E, counts: bool)
    requires e !in s
    ensures s == s + Carried(dflt, e, counts) - {e}
  {}

  lemma EraseEpochs(collected: seq<bool>, epoch: seq<bool>, loc: nat, counter: nat, epochSize: nat)
    requires |collected| == |epoch| && loc < |epoch| && EpochsOk(collected, epoch, counter, epochSize)
    ensures EpochsOk(collected[loc := true], epoch, counter, epochSize)
  {
    EraseCounts(collected, epoch, loc);
  }

  lemma EraseLive<E(!new)>(dflt: E, table: seq<E>, collected: seq<bool>, loc: nat)
    requires |table| == |collected| && loc < |table| && Unique(dflt, table)
    ensures table[loc] != dflt ==>
              Live(dflt, table, collected[loc := true]) == Live(dflt, table, collected) - {table[loc]}
  {
    var collected' := collected[loc := true];
    forall x | x in Live(dflt, table, collected) - {table[loc]}
      ensures x in Live(dflt, table, collected')
    {
      var i :| 0 <= i < |table| && !collected[i] && table[i] == x && x != dflt;
      assert !collected'[i];
    }
  }

  /** std::find, with 8 for the end iterator. */
  function IndexOf(locs: seq<nat>, loc: nat): (k: nat)
    requires |locs| == 8
    ensures k <= 8 && (k < 8 ==> locs[k] == loc) && forall j :: 0 <= j < k ==> locs[j] != loc
  {
    if locs[0] == loc then 0 else if locs[1] == loc then 1 else if locs[2] == loc then 2 else if locs[3] == loc then 3
    else if locs[4] == loc then 4 else if locs[5] == loc then 5 else if locs[6] == loc then 6
    else if locs[7] == loc then 7 else 8
  }

  ghost predicate EpochsRoom(newest: nat, older: nat, counter: nat, epochSize: nat) {
    newest + 1 + counter <= EpochBound(epochSize) && older <= EpochBound(epochSize)
  }

  lemma RoomOf(collected: seq<bool>, epoch: seq<bool>, counter: nat, epochSize: nat)
    requires |collected| == |epoch| && EpochsOk(collected, epoch, counter + 1, epochSize)
    ensures EpochsRoom(CountTrue(Newest(collected, epoch)), CountTrue(Older(collected, epoch)), counter, epochSize)
  {}

  lemma EpochsFilled(collected: seq<bool>, epoch: seq<bool>, n0: nat, o0: nat, counter: nat, epochSize: nat)
    requires |collected| == |epoch| && EpochsRoom(n0, o0, counter, epochSize)
    requires CountTrue(Newest(collected, epoch)) <= n0 + 1 && CountTrue(Older(collected, epoch)) <= o0
    ensures EpochsOk(collected, epoch, counter, epochSize)
  {}

  lemma TableUnique<E(!new)>(hash: (E, nat) -> uint32, dflt: E, table: seq<E>)
    requires TableOk(hash, dflt, table)
    ensures Unique(dflt, table)
  {}

  lemma PlacedIn<E(!new)>(hash: (E, nat) -> uint32, dflt: E, table: seq<E>)
    requires TableOk(hash, dflt, table)
    ensures Placed(hash, dflt, table)
  {}

  /** After ageing exactly the elements of the newest epoch are left, and none of them is in the newest any more. */
  lemma AgedContents<E(!new)>(dflt: E, table: seq<E>, collected: seq<bool>, epoch: seq<bool>, collected': seq<bool>, epoch': seq<bool>)
    requires |table| == |collected| == |epoch| == |collected'| == |epoch'| && Aged(collected, epoch, collected', epoch')
    ensures Live(dflt, table, collected') == Live(dflt, table, Stale(collected, epoch))
    ensures Live(dflt, table, Stale(collected', epoch')) == {} && collected' == Stale(collected, epoch)
  {
    assert collected' == Stale(collected, epoch);
  }

  lemma AbsentNotLive<E(!new)>(dflt: E, table: seq<E>, collected: seq<bool>, e: E)
    requires |table| == |collected| && Absent(dflt, table, e)
    ensures e !in Live(dflt, table, collected)
  {}
}
