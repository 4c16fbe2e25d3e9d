/**
 * The rolling bloom filter (CRollingBloomFilter in src/bloom.cpp): every position holds the two-bit number
 * of the generation that set it last, and old generations are wiped when their number is used again.
 */
module Bloom {
  import opened Power
  import opened BitOps

  // ----- words of 64 bits ---------------------------------------------------------------------------

  const WORD_BITS := 64
  const WORD_MAX: nat := 0xffff_ffff_ffff_ffff
  type Word = x: int | 0 <= x <= 0xffff_ffff_ffff_ffff

  lemma WordSize()
    ensures Pow2(WORD_BITS) == WORD_MAX + 1
  {
    Pow2Small();
    Pow2Add(16, 16);
    Pow2Add(32, 32);
  }

  function Or(x: Word, y: Word): Word {
    WordSize();
    OrBound(x, y, WORD_BITS);
    BitOr(x, y)
  }

  function And(x: Word, y: Word): Word { BitAnd(x, y) }

  function Xor(x: Word, y: Word): Word {
    WordSize();
    OrBound(x, y, WORD_BITS);
    BitXor(x, y)
  }

  function Not(x: Word): Word { WORD_MAX - x }

  /** v << b for a single bit v. */
  function Shift(v: bool, b: nat): Word
    requires b < WORD_BITS
  {
    WordSize();
    PowGrows(2, b, WORD_BITS - 1);
    Pow2Add(1, WORD_BITS - 1);
    if v then Pow2(b) else 0
  }

  /** 0 - v for a single bit v. */
  function Mask(v: bool): Word { if v then WORD_MAX else 0 }

  lemma ShiftAt(v: bool, b: nat, c: nat)
    requires b < WORD_BITS
    ensures BitAt(Shift(v, b), c) <==> v && c == b
  {
    Pow2At(b, c);
    ZeroAt(c);
  }

  lemma NotWordAt(x: Word, b: nat)
    requires b < WORD_BITS
    ensures BitAt(Not(x), b) <==> !BitAt(x, b)
  {
    WordSize();
    NotAt(x, WORD_BITS, b);
  }

  lemma MaskAt(v: bool, b: nat)
    requires b < WORD_BITS
    ensures BitAt(Mask(v), b) <==> v
  {
    ZeroAt(b);
    NotWordAt(0, b);
  }

  /** One bit replaced. */
  function Replace(w: Word, v: bool, b: nat): Word
    requires b < WORD_BITS
  {
    Or(And(w, Not(Shift(true, b))), Shift(v, b))
  }

  lemma ReplaceAt(w: Word, v: bool, b: nat, c: nat)
    requires b < WORD_BITS && c < WORD_BITS
    ensures BitAt(Replace(w, v, b), c) <==> if c == b then v else BitAt(w, c)
  {
    hide BitAt, Not, Shift, BitOr, BitAnd;
    var one := Not(Shift(true, b));
    OrAt(And(w, one), Shift(v, b), c);
    AndAt(w, one, c);
    NotWordAt(Shift(true, b), c);
    ShiftAt(true, b, c);
    ShiftAt(v, b, c);
  }

  // ----- cells ------------------------------------------------------------------------------------------

  /** The generation number that a pair of words holds at a bit: 0 for none, else 1 to 3. */
  function Cell(p1: Word, p2: Word, b: nat): nat {
    (if BitAt(p1, b) then 1 else 0) + (if BitAt(p2, b) then 2 else 0)
  }

  predicate LowBit(g: nat) { g % 2 == 1 }
  predicate HighBit(g: nat) { g / 2 % 2 == 1 }

  /** The mask that keeps all cells of a pair of words but those of one generation. */
  function Keep(p1: Word, p2: Word, mask1: Word, mask2: Word): Word { Or(Xor(p1, mask1), Xor(p2, mask2)) }

  /** Wiping clears exactly the cells of the given generation. */
  lemma CellWiped(p1: Word, p2: Word, g: nat, b: nat)
    requires b < WORD_BITS && 1 <= g <= 3
    ensures var mask := Keep(p1, p2, Mask(LowBit(g)), Mask(HighBit(g)));
            Cell(And(p1, mask), And(p2, mask), b) == if Cell(p1, p2, b) == g then 0 else Cell(p1, p2, b)
  {
    hide BitAt, BitAnd, BitOr, BitXor, Mask;
    var m1, m2 := Mask(LowBit(g)), Mask(HighBit(g));
    var mask := Keep(p1, p2, m1, m2);
    AndAt(p1, mask, b);
    AndAt(p2, mask, b);
    OrAt(Xor(p1, m1), Xor(p2, m2), b);
    XorAt(p1, m1, b);
    XorAt(p2, m2, b);
    MaskAt(LowBit(g), b);
    MaskAt(HighBit(g), b);
  }

  /** Setting a cell to a generation leaves the other cells of its words alone. */
  lemma CellSet(p1: Word, p2: Word, g: nat, b: nat, c: nat)
    requires b < WORD_BITS && c < WORD_BITS && 1 <= g <= 3
    ensures Cell(Replace(p1, LowBit(g), b), Replace(p2, HighBit(g), b), c) == if c == b then g else Cell(p1, p2, c)
  {
    hide BitAt, Replace;
    ReplaceAt(p1, LowBit(g), b, c);
    ReplaceAt(p2, HighBit(g), b, c);
  }

  /** (w >> b) & 1 */
  predicate LowAfterShift(w: Word, b: nat) { w / Pow2(b) % 2 == 1 }

  lemma CellTest(p1: Word, p2: Word, b: nat)
    ensures LowAfterShift(Or(p1, p2), b) <==> Cell(p1, p2, b) != 0
  {
    hide BitAt, BitOr, Pow2;
    BitAtIff(Or(p1, p2), b);
    OrAt(p1, p2, b);
  }

  /** A place in the filter: a pair of words and a bit. */
  datatype Place = Place(pair: nat, bit: nat)

  type Key = seq<bv8>

  ghost predicate InRange(place: Place, words: nat) {
    2 * place.pair + 1 < words && place.bit < WORD_BITS
  }

  /** The generation stored at a place. */
  ghost function GenAt(data: seq<Word>, place: Place): nat
    requires InRange(place, |data|)
  {
    Cell(data[2 * place.pair], data[2 * place.pair + 1], place.bit)
  }

  /** The number of an absolute generation. */
  function Number(g: int): nat { g % 3 + 1 }

  /** One of the numbers of the generations g - t up to g, for t up to 2. */
  ghost predicate Recent(x: nat, g: int, t: int) {
    x == Number(g) || (t >= 1 && x == Number(g - 1)) || (t >= 2 && x == Number(g - 2))
  }

  /** What determines the places of a key: the hash, the tweak, the number of hashes, the number of words. */
  datatype Config = Config(murmur: (nat, Key) -> nat, nTweak: nat, nHashFuncs: nat, words: nat)
  {
    ghost predicate Ok() { words % 2 == 0 && words >= 2 }

    /** RollingBloomHash */
    function Hash(n: nat, key: Key): nat { murmur(Seed(n), key) % 0x1_0000_0000 }

    function Seed(n: nat): nat { (n * 0xFBA4C795 + nTweak) % 0x1_0000_0000 }

    function PlaceOf(n: nat, key: Key): Place
      requires words > 0
    {
      Place(Hash(n, key) / 64 % words / 2, Hash(n, key) % 64)
    }
  }

  /** The pair of words of a place starts at the even one of the word selected. */
  lemma PairStart(cfg: Config, n: nat, key: Key, pos: nat)
    requires cfg.Ok() && pos == cfg.Hash(n, key) / 64 % cfg.words
    ensures 2 * cfg.PlaceOf(n, key).pair == pos - pos % 2 && 0 <= pos - pos % 2 && pos - pos % 2 + 1 < cfg.words
  {}

  /** The seeds start from the tweak and go up by a constant in 32 bits. */
  lemma SeedStep(cfg: Config, n: nat)
    ensures cfg.Seed(0) == cfg.nTweak % 0x1_0000_0000 && cfg.Seed(n + 1) == (cfg.Seed(n) + 0xFBA4C795) % 0x1_0000_0000
  {
    ModAdd(n * 0xFBA4C795 + cfg.nTweak, 0xFBA4C795, 0x1_0000_0000);
  }

  lemma ModAdd(x: nat, y: nat, q: nat)
    requires q > 0
    ensures (x + y) % q == (x % q + y) % q
  {
    var z := x % q + y;
    assert x + y == q * (x / q + z / q) + z % q;
    DivModUnique(x + y, q, x / q + z / q, z % q);
  }

  /** The hash functions of a key have different seeds: the factor is odd, hence invertible. */
  lemma SeedsDiffer(cfg: Config, n: nat, m: nat)
    requires n < 0x1_0000_0000 && m < 0x1_0000_0000 && cfg.Seed(n) == cfg.Seed(m)
    ensures n == m
  {
    var q, f := 0x1_0000_0000, 0xFBA4C795;
    var k := (n * f + cfg.nTweak) / q - (m * f + cfg.nTweak) / q;
    assert (n - m) * f == k * q;
    Cancel(n - m, f, 0x75604BBD, 1935734645, k, q);
  }

  lemma Cancel(d: int, f: int, inverse: int, j: int, k: int, q: int)
    requires d * f == k * q && f * inverse == j * q + 1 && q > 0 && -q < d < q
    ensures d == 0
  {
    calc {
      d;
      d * (f * inverse - j * q);
      d * f * inverse - d * j * q;
      k * q * inverse - d * j * q;
      (k * inverse - d * j) * q;
    }
    NoMultiple(k * inverse - d * j, q);
  }

  lemma NoMultiple(x: int, q: int)
    requires q > 0 && -q < x * q < q
    ensures x == 0
  {
    assert x >= 1 ==> x * q >= q;
    assert x <= -1 ==> x * q <= -q;
  }

  // ----- what the filter keeps -------------------------------------------------------------------------------

  /** Everything the proof follows: the inserted keys and the absolute number of the current generation. */
  datatype Track = Track(cfg: Config, history: seq<Key>, gen: nat)

  /** The place is one of the first n of the key. */
  ghost predicate Has(cfg: Config, key: Key, n: nat, place: Place) {
    cfg.Ok() && exists k: nat :: k < n && cfg.PlaceOf(k, key) == place
  }

  /** The place belongs to a key inserted at time `from` or later. */
  ghost predicate Touched(t: Track, place: Place, from: int) {
    exists i :: 0 <= i < |t.history| && from <= i && Has(t.cfg, t.history[i], t.cfg.nHashFuncs, place)
  }

  /** Every place of the key belongs to one of the keys from time `from` on. */
  ghost predicate AllTouched(cfg: Config, keys: seq<Key>, key: Key, from: int) {
    cfg.Ok() && forall k: nat :: k < cfg.nHashFuncs ==> Touched(Track(cfg, keys, 0), cfg.PlaceOf(k, key), from)
  }

  /** A place holds one of the last numbers exactly if it belongs to a key of the last generations. */
  ghost predicate Exact(t: Track, data: seq<Word>, per: nat, place: Place)
    requires InRange(place, |data|)
  {
    && (Recent(GenAt(data, place), t.gen, 0) <==> Touched(t, place, t.gen * per))
    && (Recent(GenAt(data, place), t.gen, 1) <==> Touched(t, place, (t.gen - 1) * per))
    && (Recent(GenAt(data, place), t.gen, 2) <==> Touched(t, place, (t.gen - 2) * per))
  }

  ghost predicate Levels(t: Track, data: seq<Word>, per: nat) {
    forall place {:trigger Exact(t, data, per, place)} :: InRange(place, |data|) ==> Exact(t, data, per, place)
  }

  /** Same cells except those holding number g, which are empty now. */
  ghost predicate Wiped(data: seq<Word>, data': seq<Word>, g: nat) {
    |data'| == |data| &&
    forall place {:trigger GenAt(data', place)} :: InRange(place, |data|) ==>
      GenAt(data', place) == if GenAt(data, place) == g then 0 else GenAt(data, place)
  }

  /** Same cells except the first n places of the key, which hold g now. */
  ghost predicate Marked(cfg: Config, data: seq<Word>, data': seq<Word>, key: Key, n: nat, g: nat) {
    |data'| == |data| &&
    forall place {:trigger GenAt(data', place)} :: InRange(place, |data|) ==>
      GenAt(data', place) == if Has(cfg, key, n, place) then g else GenAt(data, place)
  }

  /** Starting a generation: what was recent is one generation older, and what becomes older than that is gone. */
  lemma WipedLevels(t: Track, data: seq<Word>, data': seq<Word>, per: nat)
    requires Levels(t, data, per) && Wiped(data, data', Number(t.gen + 1)) && |t.history| == (t.gen + 1) * per
    ensures Levels(t.(gen := t.gen + 1), data', per)
  {
    hide GenAt, Has, Touched;
    var t' := t.(gen := t.gen + 1);
    forall place {:trigger Exact(t', data', per, place)} | InRange(place, |data'|)
      ensures Exact(t', data', per, place)
    {
      assert Exact(t, data, per, place);
      SameTouched(t, t', place, t.gen * per);
      SameTouched(t, t', place, (t.gen - 1) * per);
      NotTouched(t', place, (t.gen + 1) * per);
    }
  }

  lemma SameTouched(t: Track, t': Track, place: Place, from: int)
    requires t'.cfg == t.cfg && t'.history == t.history
    ensures Touched(t', place, from) <==> Touched(t, place, from)
  {}

  lemma NotTouched(t: Track, place: Place, from: int)
    requires |t.history| <= from
    ensures !Touched(t, place, from)
  {}

  lemma TouchedNext(t: Track, key: Key, place: Place, from: int)
    requires from <= |t.history|
    ensures Touched(t.(history := t.history + [key]), place, from) <==> Touched(t, place, from) || Has(t.cfg, key, t.cfg.nHashFuncs, place)
  {
    hide Has;
    var t' := t.(history := t.history + [key]);
    assert t'.history[|t.history|] == key;
    assert forall i :: 0 <= i < |t.history| ==> t'.history[i] == t.history[i];
  }

  /** Inserting a key: exactly its places become recent. */
  lemma MarkedLevels(t: Track, data: seq<Word>, data': seq<Word>, per: nat, key: Key)
    requires Levels(t, data, per) && Marked(t.cfg, data, data', key, t.cfg.nHashFuncs, Number(t.gen)) && t.gen * per <= |t.history|
    ensures Levels(t.(history := t.history + [key]), data', per)
  {
    hide GenAt, Has, Touched;
    var t' := t.(history := t.history + [key]);
    Backwards(t.gen, per);
    forall place {:trigger Exact(t', data', per, place)} | InRange(place, |data'|)
      ensures Exact(t', data', per, place)
    {
      assert Exact(t, data, per, place);
      TouchedNext(t, key, place, t.gen * per);
      TouchedNext(t, key, place, (t.gen - 1) * per);
      TouchedNext(t, key, place, (t.gen - 2) * per);
    }
  }

  lemma Backwards(gen: nat, per: nat)
    ensures (gen - 1) * per == gen * per - per && (gen - 2) * per == gen * per - 2 * per
  {}

  /** The words with one place set to a generation. */
  ghost function Set(data: seq<Word>, p: Place, g: nat): seq<Word>
    requires InRange(p, |data|) && 1 <= g <= 3
  {
    data[2 * p.pair := Replace(data[2 * p.pair], LowBit(g), p.bit)][2 * p.pair + 1 := Replace(data[2 * p.pair + 1], HighBit(g), p.bit)]
  }

  lemma SetPlace(data: seq<Word>, p: Place, g: nat, place: Place)
    requires InRange(p, |data|) && 1 <= g <= 3 && InRange(place, |data|)
    ensures GenAt(Set(data, p, g), place) == if place == p then g else GenAt(data, place)
  {
    hide Cell, Replace, LowBit, HighBit;
    CellSet(data[2 * p.pair], data[2 * p.pair + 1], g, p.bit, place.bit);
  }

  lemma NumberNext(g: int)
    ensures Number(g + 1) == (if Number(g) + 1 == 4 then 1 else Number(g) + 1) && 1 <= Number(g) <= 3
  {}

  /** No place of the key is empty. */
  ghost predicate Hit(cfg: Config, data: seq<Word>, key: Key) {
    cfg.Ok() && |data| == cfg.words && forall k: nat :: k < cfg.nHashFuncs ==> GenAt(data, cfg.PlaceOf(k, key)) != 0
  }

  lemma PlaceInRange(cfg: Config, k: nat, key: Key)
    requires cfg.Ok()
    ensures InRange(cfg.PlaceOf(k, key), cfg.words)
  {}

  /** What is found: the keys all of whose places belong to keys of the current generation and the two before it. */
  lemma HitIff(t: Track, data: seq<Word>, per: nat, key: Key)
    requires Levels(t, data, per) && t.cfg.Ok() && |data| == t.cfg.words
    ensures Hit(t.cfg, data, key) <==> forall k: nat :: k < t.cfg.nHashFuncs ==> Touched(t, t.cfg.PlaceOf(k, key), (t.gen - 2) * per)
  {
    hide GenAt, Touched, Levels, InRange;
    forall k: nat | k < t.cfg.nHashFuncs
      ensures InRange(t.cfg.PlaceOf(k, key), |data|)
    {
      PlaceInRange(t.cfg, k, key);
    }
    forall k: nat | k < t.cfg.nHashFuncs
      ensures GenAt(data, t.cfg.PlaceOf(k, key)) != 0 <==> Touched(t, t.cfg.PlaceOf(k, key), (t.gen - 2) * per)
    {
      PlaceIff(t, data, per, t.cfg.PlaceOf(k, key));
    }
  }

  lemma PlaceIff(t: Track, data: seq<Word>, per: nat, place: Place)
    requires Levels(t, data, per) && InRange(place, |data|)
    ensures GenAt(data, place) != 0 <==> Touched(t, place, (t.gen - 2) * per)
  {
    hide GenAt, Touched;
    CellRange(data, place);
    assert Exact(t, data, per, place);
  }

  lemma CellRange(data: seq<Word>, place: Place)
    requires InRange(place, |data|)
    ensures 0 <= GenAt(data, place) <= 3
  {}

  // ----- the filter -----------------------------------------------------------------------------------------

  class RollingBloomFilter {
    const murmur: (nat, Key) -> nat
    const nHashFuncs: nat
    const nEntriesPerGeneration: nat
    const data: array<Word>
    var nTweak: nat
    var nEntriesThisGeneration: nat
    var nGeneration: nat
    /** The keys inserted since the last reset, and the number of generations begun since. */
    ghost var history: seq<Key>
    ghost var gen: nat

    function Cfg(): Config
      reads this
    {
      Config(murmur, nTweak, nHashFuncs, data.Length)
    }

    ghost predicate Valid()
      reads this, data
    {
      && Cfg().Ok() && nHashFuncs >= 1 && nGeneration == Number(gen)
      && |history| == gen * nEntriesPerGeneration + nEntriesThisGeneration
      && (nEntriesPerGeneration > 0 ==> nEntriesThisGeneration <= nEntriesPerGeneration)
      && (history != [] ==> nEntriesThisGeneration > 0)
      && Levels(Track(Cfg(), history, gen), data[..], nEntriesPerGeneration)
    }

    /** A filter for nElements elements, with sizes as computed from the wanted error rate. */
    constructor (murmur: (nat, Key) -> nat, nElements: nat, nHashFuncs: nat, nFilterBits: nat, tweak: nat)
      requires 1 <= nHashFuncs <= 50 && nFilterBits >= 1
      ensures Valid() && history == [] && fresh(data) && nElements <= 2 * nEntriesPerGeneration <= nElements + 1
      ensures Cfg() == Config(murmur, tweak, nHashFuncs, 2 * ((nFilterBits + 63) / 64))
    {
      this.murmur, this.nHashFuncs := murmur, nHashFuncs;
      nEntriesPerGeneration := (nElements + 1) / 2;
      data := new Word[(nFilterBits + 63) / 64 * 2];
      new;
      Reset(tweak);
    }

    /** reset: nothing is contained. */
    method Reset(tweak: nat)
      requires data.Length % 2 == 0 && data.Length >= 2 && nHashFuncs >= 1
      modifies this, data
      ensures Valid() && history == [] && nTweak == tweak && forall key :: !Hit(Cfg(), data[..], key)
    {
      nTweak, nEntriesThisGeneration, nGeneration := tweak, 0, 1;
      history, gen := [], 0;
      for i := 0 to data.Length
        invariant forall j :: 0 <= j < i ==> data[j] == 0
        modifies data
      {
        data[i] := 0;
      }
      Blank(Track(Cfg(), [], 0), data[..], nEntriesPerGeneration);
    }

    /** Wipe old entries that used the new generation number. */
    method Wipe()
      requires Cfg().Ok() && 1 <= nGeneration <= 3
      modifies data
      ensures Wiped(old(data[..]), data[..], nGeneration)
    {
      hide Cell, Keep, And, LowBit, HighBit, Mask;
      ghost var data0 := data[..];
      var mask1, mask2 := Mask(LowBit(nGeneration)), Mask(HighBit(nGeneration));
      var p := 0;
      while p < data.Length
        invariant 0 <= p <= data.Length && p % 2 == 0
        invariant forall place {:trigger GenAt(data[..], place)} :: InRange(place, data.Length) ==>
                    GenAt(data[..], place) == if 2 * place.pair < p && GenAt(data0, place) == nGeneration then 0 else GenAt(data0, place)
      {
        ghost var before := data[..];
        var p1, p2 := data[p], data[p + 1];
        var mask := Keep(p1, p2, mask1, mask2);
        data[p] := And(p1, mask);
        data[p + 1] := And(p2, mask);
        forall place {:trigger GenAt(data[..], place)} | InRange(place, data.Length)
          ensures GenAt(data[..], place) == if 2 * place.pair < p + 2 && GenAt(data0, place) == nGeneration then 0 else GenAt(data0, place)
        {
          CellWiped(p1, p2, nGeneration, place.bit);
          assert GenAt(before, place) == if 2 * place.pair < p && GenAt(data0, place) == nGeneration then 0 else GenAt(data0, place);
        }
        p := p + 2;
      }
    }

    /** Set all places of a key to the current generation. */
    method Mark(key: Key)
      requires Cfg().Ok() && 1 <= nGeneration <= 3
      modifies data
      ensures Marked(Cfg(), old(data[..]), data[..], key, nHashFuncs, nGeneration)
    {
      hide Cell, Replace, LowBit, HighBit, GenAt;
      ghost var data0 := data[..];
      for n := 0 to nHashFuncs
        invariant Marked(Cfg(), data0, data[..], key, n, nGeneration)
      {
        ghost var before := data[..];
        MarkOne(key, n);
        forall place {:trigger GenAt(data[..], place)} | InRange(place, data.Length)
          ensures GenAt(data[..], place) == if Has(Cfg(), key, n + 1, place) then nGeneration else GenAt(data0, place)
        {
          assert GenAt(before, place) == if Has(Cfg(), key, n, place) then nGeneration else GenAt(data0, place);
          HasNext(Cfg(), key, n, place);
        }
      }
    }

    /** Set one place of a key to the current generation. */
    method MarkOne(key: Key, n: nat)
      requires Cfg().Ok() && 1 <= nGeneration <= 3 && n < nHashFuncs
      modifies data
      ensures forall place {:trigger GenAt(data[..], place)} :: InRange(place, data.Length) ==>
                GenAt(data[..], place) == if place == Cfg().PlaceOf(n, key) then nGeneration else GenAt(old(data[..]), place)
    {
      hide Cell, Replace, LowBit, HighBit, GenAt;
      var h := Cfg().Hash(n, key);
      var bit := h % 64;
      var pos := h / 64 % data.Length;
      ghost var before := data[..];
      var even := pos - pos % 2;
      data[even] := Replace(data[even], LowBit(nGeneration), bit);
      data[even + 1] := Replace(data[even + 1], HighBit(nGeneration), bit);
      ghost var here := Cfg().PlaceOf(n, key);
      assert data[..] == Set(before, here, nGeneration);
      forall place {:trigger GenAt(data[..], place)} | InRange(place, data.Length)
        ensures GenAt(data[..], place) == if place == here then nGeneration else GenAt(before, place)
      {
        SetPlace(before, here, nGeneration, place);
      }
    }

    /** insert: the key is added, and starts a new generation if the current one is full. */
    method Insert(key: Key)
      requires Valid()
      modifies this, data
      ensures Valid() && history == old(history) + [key] && nTweak == old(nTweak)
    {
      hide Levels, Wiped, Marked, Number;
      NumberNext(gen);
      NumberNext(gen + 1);
      var per := nEntriesPerGeneration;
      if nEntriesThisGeneration == nEntriesPerGeneration {
        nEntriesThisGeneration := 0;
        nGeneration := nGeneration + 1;
        if nGeneration == 4 {
          nGeneration := 1;
        }
        ghost var before := data[..];
        assert (gen + 1) * per == gen * per + per;
        Wipe();
        WipedLevels(Track(Cfg(), history, gen), before, data[..], per);
        gen := gen + 1;
      }
      nEntriesThisGeneration := nEntriesThisGeneration + 1;
      ghost var before, t := data[..], Track(Cfg(), history, gen);
      Mark(key);
      MarkedLevels(t, before, data[..], per, key);
      history := history + [key];
    }

    /** contains */
    method Contains(key: Key) returns (r: bool)
      requires Valid()
      ensures r <==> Hit(Cfg(), data[..], key)
      ensures r <==> forall k: nat :: k < nHashFuncs ==> Touched(Track(Cfg(), history, gen), Cfg().PlaceOf(k, key), (gen - 2) * nEntriesPerGeneration)
    {
      hide Cell, Or, Levels, Touched, LowAfterShift;
      HitIff(Track(Cfg(), history, gen), data[..], nEntriesPerGeneration, key);
      for n := 0 to nHashFuncs
        invariant forall k: nat :: k < n ==> GenAt(data[..], Cfg().PlaceOf(k, key)) != 0
      {
        var h := Cfg().Hash(n, key);
        var bit := h % 64;
        var pos := h / 64 % data.Length;
        var even := pos - pos % 2;
        PairStart(Cfg(), n, key, pos);
        CellTest(data[even], data[even + 1], bit);
        if !LowAfterShift(Or(data[even], data[even + 1]), bit) {
          return false;
        }
      }
      return true;
    }

    /** The last inserted keys, at least twice nEntriesPerGeneration of them, are contained. */
    lemma LastKeysContained(i: nat)
      requires Valid() && |history| - (2 * nEntriesPerGeneration + nEntriesThisGeneration) <= i < |history|
      ensures Hit(Cfg(), data[..], history[i])
    {
      hide Levels;
      var t := Track(Cfg(), history, gen);
      Backwards(gen, nEntriesPerGeneration);
      HitIff(t, data[..], nEntriesPerGeneration, history[i]);
      forall k: nat | k < nHashFuncs
        ensures Touched(t, Cfg().PlaceOf(k, history[i]), (gen - 2) * nEntriesPerGeneration)
      {
        assert Has(Cfg(), history[i], nHashFuncs, Cfg().PlaceOf(k, history[i]));
      }
    }

    /** Nothing else leaves a trace: every place of a contained key belongs to one of the last three times nEntriesPerGeneration keys. */
    lemma OldKeysForgotten(key: Key)
      requires Valid() && nEntriesPerGeneration > 0 && Hit(Cfg(), data[..], key)
      ensures AllTouched(Cfg(), history, key, |history| - 3 * nEntriesPerGeneration)
    {
      hide Levels, Has;
      Backwards(gen, nEntriesPerGeneration);
      HitIff(Track(Cfg(), history, gen), data[..], nEntriesPerGeneration, key);
    }
  }

  lemma HasNext(cfg: Config, key: Key, n: nat, place: Place)
    requires cfg.Ok()
    ensures Has(cfg, key, n + 1, place) <==> Has(cfg, key, n, place) || place == cfg.PlaceOf(n, key)
  {
    var n' := n + 1;
    if Has(cfg, key, n, place) {
      var k: nat :| k < n && cfg.PlaceOf(k, key) == place;
      assert k < n';
    }
  }

  /** An empty filter contains nothing. */
  lemma Blank(t: Track, data: seq<Word>, per: nat)
    requires t.cfg.Ok() && |data| == t.cfg.words && t.cfg.nHashFuncs >= 1 && forall j :: 0 <= j < |data| ==> data[j] == 0
    requires t.history == []
    ensures Levels(t, data, per) && forall key :: !Hit(t.cfg, data, key)
  {
    forall place {:trigger GenAt(data, place)} | InRange(place, |data|)
      ensures GenAt(data, place) == 0
    {
      ZeroAt(place.bit);
    }
    hide GenAt;
    forall place {:trigger Exact(t, data, per, place)} | InRange(place, |data|)
      ensures Exact(t, data, per, place)
    {
      assert GenAt(data, place) == 0;
    }
    forall key
      ensures !Hit(t.cfg, data, key)
    {
      PlaceInRange(t.cfg, 0, key);
      assert GenAt(data, t.cfg.PlaceOf(0, key)) == 0;
    }
  }

  /**
   * Any sequence of inserts: afterwards the last nElements keys are all contained, whatever bits they share
   * and however many generations were wiped, and every place of a contained key belongs to one of the last
   * one and a half times as many keys.
   */
  method Run(murmur: (nat, Key) -> nat, nElements: nat, nHashFuncs: nat, nFilterBits: nat, tweak: nat, keys: seq<Key>)
    returns (filter: RollingBloomFilter)
    requires 1 <= nHashFuncs <= 50 && nFilterBits >= 1
    ensures filter.Valid() && filter.history == keys
    ensures forall i :: 0 <= i < |keys| && |keys| - nElements <= i ==> Hit(filter.Cfg(), filter.data[..], keys[i])
    ensures nElements > 0 ==> forall key :: Hit(filter.Cfg(), filter.data[..], key) ==>
              AllTouched(filter.Cfg(), keys, key, |keys| - 3 * ((nElements + 1) / 2))
  {
    hide Levels, Hit, AllTouched;
    filter := new RollingBloomFilter(murmur, nElements, nHashFuncs, nFilterBits, tweak);
    for i := 0 to |keys|
      invariant fresh(filter) && fresh(filter.data) && filter.Valid() && filter.history == keys[..i]
    {
      filter.Insert(keys[i]);
    }
    assert keys[..|keys|] == keys;
    forall i | 0 <= i < |keys| && |keys| - nElements <= i
      ensures Hit(filter.Cfg(), filter.data[..], keys[i])
    {
      filter.LastKeysContained(i);
    }
    forall key | nElements > 0 && Hit(filter.Cfg(), filter.data[..], key)
      ensures AllTouched(filter.Cfg(), keys, key, |keys| - 3 * ((nElements + 1) / 2))
    {
      filter.OldKeysForgotten(key);
    }
  }
}
