/**
 * Compact blocks (src/blockencodings.h, src/blockencodings.cpp, after BIP 152): index lists coded by
 * differences, and the reconstruction of a block from short transaction ids and the memory pool.
 */
module CompactBlocks {
  import opened Basics

  const UINT16_MAX := 65535

  // ----- differential coding of index lists ---------------------------------------------------------------

  ghost predicate Increasing(l: seq<nat>) {
    forall i, j :: 0 <= i < j < |l| ==> l[i] < l[j]
  }

  ghost predicate Short(l: seq<nat>) {
    forall i :: 0 <= i < |l| ==> l[i] <= UINT16_MAX
  }

  /** A 64-bit difference. */
  function Minus64(a: int, b: int): nat {
    (a - b) % 0x1_0000_0000_0000_0000
  }

  /** What writing puts on the wire. */
  ghost function Differences(l: seq<nat>): (d: seq<nat>)
    ensures |d| == |l|
  {
    seq(|l|, i requires 0 <= i < |l| => Difference(l, i))
  }

  function Difference(l: seq<nat>, i: nat): nat
    requires i < |l|
  {
    Minus64(l[i], if i == 0 then 0 else l[i - 1] + 1)
  }

  /** What reading makes of it: running sums with a 16-bit offset, or a failure. */
  ghost function Sums(d: seq<nat>, offset: nat): Option<seq<nat>> {
    if d == [] then Some([])
    else if d[0] > UINT16_MAX || d[0] + offset > UINT16_MAX then None
    else
      match Sums(d[1..], (d[0] + offset + 1) % (UINT16_MAX + 1))
      case None => None
      case Some(rest) => Some([d[0] + offset] + rest)
  }

  /** SerializationOp, writing. */
  method WriteIndexes(indexes: seq<nat>) returns (wire: seq<nat>)
    requires Short(indexes)
    ensures wire == Differences(indexes)
    ensures forall i :: 0 <= i < |wire| ==> wire[i] < 0x1_0000_0000_0000_0000
    ensures forall i :: 0 <= i < |wire| ==> (wire[i] + if i == 0 then 0 else indexes[i - 1] + 1) % 0x1_0000_0000_0000_0000 == indexes[i]
  {
    wire := [];
    for i := 0 to |indexes|
      invariant wire == Differences(indexes)[..i]
    {
      var index := Difference(indexes, i);
      wire := wire + [index];
    }
  }

  /** SerializationOp, reading: first the raw values, then the running offset. */
  method ReadIndexes(wire: seq<nat>) returns (r: Option<seq<nat>>)
    ensures r == Sums(wire, 0)
  {
    var indexes: seq<nat> := [];
    for i := 0 to |wire|
      invariant indexes == wire[..i] && forall j :: 0 <= j < i ==> wire[j] <= UINT16_MAX
    {
      if wire[i] > UINT16_MAX {
        TooLarge(wire, 0, i);
        return None;
      }
      indexes := indexes + [wire[i]];
    }
    var offset: nat := 0;
    assert wire[0..] == wire && indexes[..0] == [];
    PrefixedNone(Sums(wire, 0));
    for j := 0 to |indexes|
      invariant |indexes| == |wire| && indexes[j..] == wire[j..] && offset <= UINT16_MAX
      invariant Sums(wire, 0) == Prefixed(indexes[..j], Sums(wire[j..], offset))
    {
      SumsStep(wire[j..], offset, indexes[..j]);
      assert wire[j..][1..] == wire[j + 1..] && indexes[j] == wire[j];
      if indexes[j] + offset > UINT16_MAX {
        return None;
      }
      ghost var before := indexes;
      indexes := indexes[j := indexes[j] + offset];
      assert indexes[..j + 1] == before[..j] + [indexes[j]];
      offset := (indexes[j] + 1) % (UINT16_MAX + 1);
    }
    assert indexes[..|wire|] == indexes && wire[|wire|..] == [] && indexes + [] == indexes;
    return Some(indexes);
  }

  ghost function Prefixed(l: seq<nat>, r: Option<seq<nat>>): Option<seq<nat>> {
    if r.None? then None else Some(l + r.value)
  }

  lemma PrefixedNone(r: Option<seq<nat>>)
    ensures Prefixed([], r) == r
  {
    if r.Some? {
      assert [] + r.value == r.value;
    }
  }

  lemma SumsEmpty(offset: nat)
    ensures Sums([], offset) == Some([])
  {}

  lemma SumsStep(d: seq<nat>, offset: nat, l: seq<nat>)
    requires d != [] && d[0] <= UINT16_MAX
    ensures Prefixed(l, Sums(d, offset)) ==
            if d[0] + offset > UINT16_MAX then None
            else Prefixed(l + [d[0] + offset], Sums(d[1..], (d[0] + offset + 1) % (UINT16_MAX + 1)))
  {
    var rest := Sums(d[1..], (d[0] + offset + 1) % (UINT16_MAX + 1));
    if d[0] + offset <= UINT16_MAX && rest.Some? {
      assert l + ([d[0] + offset] + rest.value) == l + [d[0] + offset] + rest.value;
    }
  }

  lemma {:induction false} TooLarge(d: seq<nat>, offset: nat, i: nat)
    requires i < |d| && d[i] > UINT16_MAX
    ensures Sums(d, offset) == None
    decreases i
  {
    if i > 0 && d[0] + offset <= UINT16_MAX {
      TooLarge(d[1..], (d[0] + offset + 1) % (UINT16_MAX + 1), i - 1);
    }
  }

  ghost function Offset(l: seq<nat>, k: nat): nat
    requires k <= |l|
  {
    if k == 0 then 0 else (l[k - 1] + 1) % (UINT16_MAX + 1)
  }

  /** Reading from entry k on, when everything so far was in order. */
  lemma {:induction false} SumsOfDifferences(l: seq<nat>, k: nat)
    requires Short(l) && Increasing(l) && k <= |l|
    ensures Sums(Differences(l)[k..], Offset(l, k)) == Some(l[k..])
    decreases |l| - k
  {
    hide Differences, Sums, Increasing, Offset;
    if k < |l| {
      SumsOfDifferences(l, k + 1);
      OffsetStep(l, k);
      var d := Differences(l)[k..];
      assert d[1..] == Differences(l)[k + 1..] && d[0] == Differences(l)[k];
      SumsCons(d, Offset(l, k), l[k], l[k + 1..]);
      assert l[k..] == [l[k]] + l[k + 1..];
    } else {
      assert Differences(l)[k..] == [] && l[k..] == [];
      SumsEmpty(Offset(l, k));
    }
  }

  lemma SumsCons(d: seq<nat>, offset: nat, x: nat, r: seq<nat>)
    requires d != [] && d[0] + offset == x <= UINT16_MAX && Sums(d[1..], (x + 1) % (UINT16_MAX + 1)) == Some(r)
    ensures Sums(d, offset) == Some([x] + r)
  {
    hide Sums;
    SumsStep(d, offset, []);
    PrefixedNone(Sums(d, offset));
    assert [] + [x] == [x];
  }

  lemma OffsetStep(l: seq<nat>, k: nat)
    requires Short(l) && Increasing(l) && k < |l|
    ensures Differences(l)[k] + Offset(l, k) == l[k] <= UINT16_MAX && Offset(l, k + 1) == (l[k] + 1) % (UINT16_MAX + 1)
  {
    hide Differences, Increasing;
    DifferenceAt(l, k);
    Before(l, k);
  }

  lemma Before(l: seq<nat>, k: nat)
    requires Increasing(l) && k < |l|
    ensures k > 0 ==> l[k - 1] < l[k]
  {}

  lemma DifferenceAt(l: seq<nat>, k: nat)
    requires Short(l) && Increasing(l) && k < |l|
    ensures Differences(l)[k] == l[k] - if k == 0 then 0 else l[k - 1] + 1
  {
    hide Minus64;
    Exact64(l[k], if k == 0 then 0 else l[k - 1] + 1);
  }

  lemma Exact64(a: nat, b: nat)
    requires b <= a <= UINT16_MAX
    ensures Minus64(a, b) == a - b
  {}

  lemma {:induction false} SumsFail(l: seq<nat>, k: nat, i: nat)
    requires Short(l) && 0 < i < |l| && l[i - 1] >= l[i] && k <= i
    ensures Sums(Differences(l)[k..], Offset(l, k)) == None
  {
    assert Differences(l)[i] > UINT16_MAX;
    TooLarge(Differences(l)[k..], Offset(l, k), i - k);
  }

  /** An index list survives writing and reading exactly if it is strictly increasing; any other is refused. */
  lemma IndexRoundTrip(l: seq<nat>)
    requires Short(l)
    ensures Sums(Differences(l), 0) == if Increasing(l) then Some(l) else None
  {
    assert Differences(l)[0..] == Differences(l) && l[0..] == l;
    if Increasing(l) {
      SumsOfDifferences(l, 0);
    } else {
      var i := Descent(l);
      SumsFail(l, 0, i);
    }
  }

  /** A list that is not increasing has a place where it does not increase. */
  lemma {:induction false} Descent(l: seq<nat>) returns (i: nat)
    requires !Increasing(l)
    ensures 0 < i < |l| && l[i - 1] >= l[i]
  {
    var n := |l| - 1;
    var t := l[..n];
    if Increasing(t) {
      assert exists j :: 0 <= j < n && l[j] >= l[n];
      var j :| 0 <= j < n && l[j] >= l[n];
      assert j < n - 1 ==> t[j] < t[n - 1];
      i := n;
    } else {
      i := Descent(t);
    }
  }

  ghost function Total(d: seq<nat>): nat {
    if d == [] then 0 else d[0] + Total(d[1..])
  }

  /** The wire list does not run past 65535. */
  ghost predicate InRange(d: seq<nat>, offset: nat) {
    d == [] || offset + Total(d) + |d| - 1 <= UINT16_MAX
  }

  lemma ReadSize(d: seq<nat>, offset: nat)
    requires Sums(d, offset).Some?
    ensures var l := Sums(d, offset).value; |l| == |d| && (d != [] ==> l[0] == d[0] + offset <= UINT16_MAX)
  {}

  /**
   * A wire list is read as a strictly increasing list exactly if it does not run past 65535. One that does is
   * refused, or the offset wraps to 0 after an entry 65535 and the list starts again from below.
   */
  lemma {:induction false} ReadIncreasing(d: seq<nat>, offset: nat)
    requires offset <= UINT16_MAX
    ensures Sums(d, offset).Some? && Increasing(Sums(d, offset).value) <==> InRange(d, offset)
  {
    hide Increasing;
    if d == [] {
      EmptyIncreasing();
    } else if d[0] + offset <= UINT16_MAX {
      var x := d[0] + offset;
      var next := (x + 1) % (UINT16_MAX + 1);
      ReadIncreasing(d[1..], next);
      if Sums(d[1..], next).Some? {
        ReadSize(d[1..], next);
        ConsIncreasing(x, Sums(d[1..], next).value);
      }
    }
  }

  lemma EmptyIncreasing()
    ensures Increasing([])
  {}

  lemma ConsIncreasing(x: nat, l: seq<nat>)
    ensures Increasing([x] + l) <==> Increasing(l) && (l != [] ==> x < l[0])
  {
    if Increasing([x] + l) {
      assert forall i :: 0 <= i < |l| ==> ([x] + l)[i + 1] == l[i];
      assert l != [] ==> ([x] + l)[0] < ([x] + l)[1];
    }
    if Increasing(l) && (l != [] ==> x < l[0]) {
      assert forall i :: 0 < i < |l| ==> l[0] < l[i];
    }
  }

  /** A list that is read although it is not increasing. */
  lemma ReadWraps()
    ensures Sums([UINT16_MAX, 7], 0) == Some([UINT16_MAX, 7]) && !Increasing([UINT16_MAX, 7])
  {
    var d: seq<nat>, e: seq<nat> := [UINT16_MAX, 7], [7];
    assert d[1..] == e && e[1..] == [];
    assert Sums([], 8) == Some([]);
    SumsStep(e, 0, [UINT16_MAX]);
    SumsStep(d, 0, []);
    PrefixedNone(Sums(d, 0));
    assert [] + [UINT16_MAX] == [UINT16_MAX] && [UINT16_MAX] + [7] + [] == d;
  }
}
