/** Notions that several components share. */
module Basics {

  /** src/consensus/consensus.h */
  const MAX_BLOCK_WEIGHT := 4_000_000

  datatype Option<T> = None | Some(value: T)

  function Max(a: int, b: int): int { if a > b then a else b }

  ghost predicate Distinct<T>(s: seq<T>) {
    forall i, j :: 0 <= i < j < |s| ==> s[i] != s[j]
  }

  ghost function Elements<T>(s: seq<T>): set<T> { set x | x in s }

  lemma {:induction false} SubsetSize<T>(s: set<T>, t: set<T>)
    requires s <= t
    ensures |s| <= |t| && (|s| == |t| ==> s == t)
    decreases s
  {
    if s != {} {
      var x :| x in s;
      SubsetSize(s - {x}, t - {x});
    }
  }
}
