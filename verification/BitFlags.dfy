/** The bit-packed garbage-collection flags of the cuckoo cache (src/cuckoocache.h). */
module BitFlags {

  /** 1 << k */
  function Mask(k: nat): bv8
    requires k < 8
  {
    if k == 0 then 1 else if k == 1 then 2 else if k == 2 then 4 else if k == 3 then 8
    else if k == 4 then 16 else if k == 5 then 32 else if k == 6 then 64 else 128
  }

  predicate BitAt(b: bv8, k: nat)
    requires k < 8
  {
    b & Mask(k) != 0
  }

  /** Bits count from the least significant one. */
  lemma BitPlace(b: bv8, k: nat)
    requires k < 8
    ensures BitAt(b, k) <==> (b >> k) & 1 == 1
  {
    if k == 0 {} else if k == 1 {} else if k == 2 {} else if k == 3 {} else if k == 4 {} else if k == 5 {} else if k == 6 {} else {}
  }

  lemma ByteSet(b: bv8, k: nat, j: nat)
    requires k < 8 && j < 8
    ensures BitAt(b | Mask(k), j) <==> j == k || BitAt(b, j)
  {}

  lemma ByteUnset(b: bv8, k: nat, j: nat)
    requires k < 8 && j < 8
    ensures BitAt(b & !Mask(k), j) <==> j != k && BitAt(b, j)
  {}

  /** Flag s lives in bit s & 7 of byte s >> 3. */
  function FlagsOf(bytes: seq<bv8>, n: nat): seq<bool>
    requires |bytes| == (n + 7) / 8
  {
    seq(n, s requires 0 <= s < n => BitAt(bytes[s / 8], s % 8))
  }

  lemma AllSet(j: nat)
    requires j < 8
    ensures BitAt(0xFF, j)
  {}

  /** The largest number of flags whose number of bytes does not wrap around. */
  const LARGEST := 0xFFFF_FFF8

  class BitPackedFlags {
    var mem: array<bv8>
    /** How many flags the memory was set up for. */
    ghost var n: nat

    ghost predicate Valid()
      reads this
    {
      mem.Length == (n + 7) / 8
    }

    /** The flags as a plain sequence. */
    ghost function Bits(): (bits: seq<bool>)
      requires Valid()
      reads this, mem
      ensures |bits| == n
    {
      FlagsOf(mem[..], n)
    }

    /**
     * The constructor, and setup: every flag starts out set. The number of bytes is computed in 32 bits, so
     * the last seven sizes of that width get no memory at all.
     */
    constructor (size: nat)
      requires size < 0x1_0000_0000
      ensures n == size && fresh(mem) && (Valid() <==> size <= LARGEST)
      ensures Valid() ==> forall s :: 0 <= s < n ==> Bits()[s]
    {
      n := size;
      mem := new bv8[(size + 7) % 0x1_0000_0000 / 8](i => 0xFF);
      new;
      if size <= LARGEST {
        forall s | 0 <= s < n
          ensures Bits()[s]
        {
          AllSet(s % 8);
        }
      }
    }

    method BitSet(s: nat)
      requires Valid() && s < n
      modifies mem
      ensures Bits() == old(Bits())[s := true]
    {
      forall t | 0 <= t < n
        ensures BitAt(mem[s / 8] | Mask(s % 8), t % 8) <==> t % 8 == s % 8 || BitAt(mem[s / 8], t % 8)
      {
        ByteSet(mem[s / 8], s % 8, t % 8);
      }
      mem[s / 8] := mem[s / 8] | Mask(s % 8);
      assert forall t :: 0 <= t < n && t / 8 == s / 8 && t % 8 == s % 8 ==> t == s;
    }

    method BitUnset(s: nat)
      requires Valid() && s < n
      modifies mem
      ensures Bits() == old(Bits())[s := false]
    {
      forall t | 0 <= t < n
        ensures BitAt(mem[s / 8] & !Mask(s % 8), t % 8) <==> t % 8 != s % 8 && BitAt(mem[s / 8], t % 8)
      {
        ByteUnset(mem[s / 8], s % 8, t % 8);
      }
      mem[s / 8] := mem[s / 8] & !Mask(s % 8);
      assert forall t :: 0 <= t < n && t / 8 == s / 8 && t % 8 == s % 8 ==> t == s;
    }

    method BitIsSet(s: nat) returns (b: bool)
      requires Valid() && s < n
      ensures b == Bits()[s]
    {
      b := BitAt(mem[s / 8], s % 8);
    }
  }
}
