/**
 * Base58 (src/base58.cpp): conversion between byte strings and text by repeated multiplication in fixed
 * digit buffers.
 */
module Base58 {
  import opened Power
  import opened Positional

  // ----- the alphabet -----------------------------------------------------------------------------------

  /** All alphanumeric characters except 0, I, O and l, in the order of their codes. */
  function Letter(v: nat): char
    requires v < 58
  {
    if v < 9 then ('1' as int + v) as char
    else if v < 17 then ('A' as int + (v - 9)) as char
    else if v < 22 then ('J' as int + (v - 17)) as char
    else if v < 33 then ('P' as int + (v - 22)) as char
    else if v < 44 then ('a' as int + (v - 33)) as char
    else ('m' as int + (v - 44)) as char
  }

  /** The position of a character in the alphabet, -1 if it is not there. */
  function Value(c: char): int {
    if '1' <= c <= '9' then c as int - '1' as int
    else if 'A' <= c <= 'H' then c as int - 'A' as int + 9
    else if 'J' <= c <= 'N' then c as int - 'J' as int + 17
    else if 'P' <= c <= 'Z' then c as int - 'P' as int + 22
    else if 'a' <= c <= 'k' then c as int - 'a' as int + 33
    else if 'm' <= c <= 'z' then c as int - 'm' as int + 44
    else -1
  }

  lemma LetterValue(v: nat)
    requires v < 58
    ensures Value(Letter(v)) == v && !IsSpace(Letter(v)) && (Letter(v) == '1' <==> v == 0)
  {}

  lemma ValueLetter(c: char)
    requires Value(c) != -1
    ensures 0 <= Value(c) < 58 && Letter(Value(c)) == c && !IsSpace(c) && (c == '1' <==> Value(c) == 0)
  {}

  predicate IsSpace(c: char) {
    c == ' ' || '\t' <= c <= '\r'
  }

  /** Space, tab, line feed, vertical tab, form feed and carriage return. */
  lemma SpaceIff(c: char)
    ensures IsSpace(c) <==> c as int in {0x20, 0x09, 0x0A, 0x0B, 0x0C, 0x0D}
  {}

  predicate Alphanumeric(c: char) { '0' <= c <= '9' || 'A' <= c <= 'Z' || 'a' <= c <= 'z' }

  /** The alphabet: every alphanumeric character but four, in ascending order. */
  lemma Alphabet(c: char, d: char)
    ensures Value(c) != -1 <==> Alphanumeric(c) && c !in "0IOl"
    ensures Value(c) != -1 && Value(d) != -1 ==> (c < d <==> Value(c) < Value(d))
  {}

  // ----- buffer sizes ---------------------------------------------------------------------------------------

  lemma EncodeRatio()
    ensures Pow(256, 8) <= Pow(58, 11)
  {
    assert Pow(58, 4) == 11316496 && Pow(58, 3) == 195112 && Pow(256, 4) == 4294967296;
    PowAdd(58, 4, 4);
    PowAdd(58, 8, 3);
    PowAdd(256, 4, 4);
  }

  lemma PowersOf58Low()
    ensures Pow(58, 7) == 2207984167552 && Pow(58, 32) == 268965015114358137726910587140455987105619365599731777536
  {
    assert Pow(58, 4) == 11316496 && Pow(58, 3) == 195112;
    PowAdd(58, 4, 3);
    PowAdd(58, 4, 4);
    PowAdd(58, 8, 8);
    PowAdd(58, 16, 16);
  }

  lemma PowersOf58()
    ensures Pow(58, 71) == 159730386663078066345306447337161584696769904898410078913243029577507397293846405390982563136983769384625594118558891106107392
  {
    PowersOf58Low();
    hide Pow;
    PowAdd(58, 32, 32);
    PowAdd(58, 64, 7);
  }

  lemma PowersOf256()
    ensures Pow(256, 52) == 169230328010303641331690318856389386196071598838855992136870091590247882556495704531248437872567112920983350278405979725889536
  {
    assert Pow(256, 4) == 4294967296 && Pow(256, 1) == 256;
    PowAdd(256, 4, 4);
    PowAdd(256, 8, 4);
    PowAdd(256, 12, 1);
    PowAdd(256, 13, 13);
    PowAdd(256, 26, 26);
  }

  /** The buffer of n * 138 / 100 + 1 base-58 digits holds every number of n bytes. */
  lemma EncodeRoom(n: nat)
    ensures Pow(256, n) < Pow(58, n * 138 / 100 + 1)
  {
    EncodeRatio();
    hide Pow;
    RatioSuffices(58, 256, 11, 8, n, n * 138 / 100 + 1);
  }

  /** The buffer of n * 733 / 1000 + 1 bytes holds every number of n base-58 digits. */
  lemma DecodeRoom(n: nat)
    ensures Pow(58, n) < Pow(256, n * 733 / 1000 + 1)
  {
    PowersOf58();
    PowersOf256();
    hide Pow;
    RatioSuffices(256, 58, 52, 71, n, n * 733 / 1000 + 1);
  }

  // ----- multiply and add in place ---------------------------------------------------------------------------

  /** The buffer holds the number v in its last `length` digits. */
  ghost predicate Holds(b: seq<nat>, base: nat, v: nat, length: nat) {
    && Digits(b, base) && length <= |b| && Num(b, base) == v
    && forall i :: 0 <= i < |b| - length ==> b[i] == 0
  }

  /**
   * The inner loop of both directions: multiply the number in the buffer by mult and add c. No carry is
   * left, so the assert on it holds.
   */
  method MultiplyAdd(b: array<nat>, base: nat, mult: nat, c: nat, length: nat, ghost v: nat) returns (i: nat)
    requires base >= 2 && Holds(b[..], base, v, length) && v * mult + c < Pow(base, b.Length)
    modifies b
    ensures Holds(b[..], base, v * mult + c, i)
  {
    hide Partial, Holds, Pow;
    ghost var b0 := b[..];
    var carry: nat := c;
    i := 0;
    PartialStart(b0, base, mult, c, v, length);
    while (carry != 0 || i < length) && i < b.Length
      invariant i <= b.Length && Partial(b[..], b0, base, mult, c, i, carry)
    {
      var k := b.Length - 1 - i;
      PartialStep(b[..], b0, base, mult, c, i, carry);
      var sum := carry + mult * b[k];
      b[k] := sum % base;
      carry := sum / base;
      i := i + 1;
    }
    Finished(b[..], b0, base, mult, c, length, i, carry, v);
    assert carry == 0;
  }

  /** The last i digits are done, with a carry for the rest. */
  ghost predicate Partial(b: seq<nat>, b0: seq<nat>, base: nat, mult: nat, c: nat, i: nat, carry: nat) {
    && i <= |b| == |b0| && Digits(b, base) && b[..|b| - i] == b0[..|b| - i]
    && Num(b[|b| - i..], base) + carry * Pow(base, i) == mult * Num(b0[|b| - i..], base) + c
  }

  lemma PartialStart(b: seq<nat>, base: nat, mult: nat, c: nat, v: nat, length: nat)
    requires Holds(b, base, v, length)
    ensures Partial(b, b, base, mult, c, 0, c)
  {}

  lemma PartialStep(b: seq<nat>, b0: seq<nat>, base: nat, mult: nat, c: nat, i: nat, carry: nat)
    requires base >= 2 && Partial(b, b0, base, mult, c, i, carry) && i < |b|
    ensures 0 <= carry + mult * b[|b| - 1 - i] && 0 <= (carry + mult * b[|b| - 1 - i]) % base && 0 <= (carry + mult * b[|b| - 1 - i]) / base
    ensures var k := |b| - 1 - i;
            var sum := carry + mult * b[k];
            Partial(b[k := sum % base], b0, base, mult, c, i + 1, sum / base)
  {
    hide Num, Pow;
    var k := |b| - 1 - i;
    MulMonotone(0, b[k], mult);
    var sum := carry + mult * b[k];
    var b' := b[k := sum % base];
    assert b[k] == b[..k + 1][k] == b0[k];
    assert b'[k + 1..] == b[k + 1..];
    assert b'[..k] == b[..k + 1][..k] == b0[..k + 1][..k] == b0[..k];
    SuffixStep(b', b[k + 1..], b0, base, mult, c, i, carry);
  }

  lemma SuffixStep(b: seq<nat>, tail: seq<nat>, b0: seq<nat>, base: nat, mult: nat, c: nat, i: nat, carry: nat)
    requires base >= 2 && i < |b| == |b0| && tail == b[|b| - i..]
    requires b[|b| - 1 - i] == (carry + mult * b0[|b| - 1 - i]) % base
    requires Num(tail, base) + carry * Pow(base, i) == mult * Num(b0[|b| - i..], base) + c
    ensures Num(b[|b| - 1 - i..], base) + (carry + mult * b0[|b| - 1 - i]) / base * Pow(base, i + 1) ==
            mult * Num(b0[|b| - 1 - i..], base) + c
  {
    hide Num;
    var k := |b| - 1 - i;
    assert b[k..] == [b[k]] + tail && b0[k..] == [b0[k]] + b0[k + 1..];
    NumFirst(b[k], tail, base);
    NumFirst(b0[k], b0[k + 1..], base);
    var p := Pow(base, i);
    assert Pow(base, i + 1) == base * p;
    hide Pow;
    SuffixAlgebra(carry + mult * b0[k], base, p, carry, mult, b0[k], Num(b0[k + 1..], base));
  }

  lemma SuffixAlgebra(sum: nat, base: nat, p: nat, carry: nat, mult: nat, d: nat, v: nat)
    requires base > 0 && sum == carry + mult * d
    ensures sum % base * p + sum / base * (base * p) == carry * p + mult * (d * p)
    ensures mult * (d * p + v) == mult * (d * p) + mult * v
  {
    assert sum == base * (sum / base) + sum % base;
    assert sum / base * (base * p) == base * (sum / base) * p;
    assert (base * (sum / base) + sum % base) * p == base * (sum / base) * p + sum % base * p;
    assert (carry + mult * d) * p == carry * p + mult * d * p;
    assert mult * d * p == mult * (d * p);
  }

  lemma Finished(b: seq<nat>, b0: seq<nat>, base: nat, mult: nat, c: nat, length: nat, i: nat, carry: nat, v: nat)
    requires base >= 2 && Partial(b, b0, base, mult, c, i, carry)
    requires !((carry != 0 || i < length) && i < |b|)
    requires Holds(b0, base, v, length) && v * mult + c < Pow(base, |b|)
    ensures carry == 0 && Holds(b, base, v * mult + c, i)
  {
    hide Num, Pow;
    if i == |b| {
      assert b[0..] == b && b0[0..] == b0;
      NoCarry(Num(b, base), carry, Pow(base, i), v * mult + c);
    } else {
      TopUnchanged(b, b0, base, v, length, i);
    }
  }

  lemma NoCarry(n: nat, carry: nat, p: nat, total: nat)
    requires n + carry * p == total < p
    ensures carry == 0
  {
    if carry > 0 {
      MulMonotone(1, carry, p);
    }
  }

  /** Digits above the length are zero before and after. */
  lemma TopUnchanged(b: seq<nat>, b0: seq<nat>, base: nat, v: nat, length: nat, i: nat)
    requires length <= i < |b| == |b0| && b[..|b| - i] == b0[..|b| - i] && Holds(b0, base, v, length)
    ensures Num(b, base) == Num(b[|b| - i..], base) && v == Num(b0[|b| - i..], base)
    ensures forall j :: 0 <= j < |b| - i ==> b[j] == 0
  {
    hide Num, Pow;
    var k := |b| - i;
    assert forall j :: 0 <= j < k ==> b[j] == b[..k][j] == b0[..k][j] == b0[j];
    NumZeros(b[..k], base);
    NumZeros(b0[..k], base);
    NumCat(b[..k], b[k..], base);
    NumCat(b0[..k], b0[k..], base);
    assert b == b[..k] + b[k..] && b0 == b0[..k] + b0[k..];
  }

  // ----- what the two directions compute ------------------------------------------------------------------------

  ghost function Leading<T>(s: seq<T>, x: T): (z: nat)
    ensures z <= |s| && (forall i :: 0 <= i < z ==> s[i] == x) && (z < |s| ==> s[z] != x)
  {
    if s == [] || s[0] != x then 0 else 1 + Leading(s[1..], x)
  }

  lemma LeadingIs<T>(s: seq<T>, x: T, z: nat)
    requires z <= |s| && (forall i :: 0 <= i < z ==> s[i] == x) && (z < |s| ==> s[z] != x)
    ensures Leading(s, x) == z
  {}

  ghost function Copies<T>(x: T, n: nat): (r: seq<T>)
    ensures |r| == n && forall i :: 0 <= i < n ==> r[i] == x
  {
    seq(n, i => x)
  }

  ghost function Letters(d: seq<nat>): (r: string)
    requires Digits(d, 58)
    ensures |r| == |d| && forall i :: 0 <= i < |d| ==> r[i] == Letter(d[i])
  {
    seq(|d|, i requires 0 <= i < |d| => Letter(d[i]))
  }

  ghost predicate InAlphabet(s: string) {
    forall i :: 0 <= i < |s| ==> Value(s[i]) != -1
  }

  ghost function Values(s: string): (r: seq<nat>)
    requires InAlphabet(s)
    ensures |r| == |s| && Digits(r, 58) && forall i :: 0 <= i < |s| ==> r[i] == Value(s[i])
  {
    forall c | Value(c) != -1
      ensures 0 <= Value(c) < 58
    {
      ValueLetter(c);
    }
    seq(|s|, i requires 0 <= i < |s| => Value(s[i]))
  }

  /** A one for every leading zero byte, then the rest of the bytes as a number in base 58. */
  ghost function Encoded(vch: seq<nat>): string {
    var z := Leading(vch, 0);
    Copies('1', z) + Letters(ToBase(Num(vch[z..], 256), 58))
  }

  /** A zero byte for every leading one, then the rest of the text as a number in base 256. */
  ghost function Decoded(s: string): seq<nat>
    requires InAlphabet(s)
  {
    var z := Leading(s, '1');
    Copies(0, z) + ToBase(Num(Values(s[z..]), 58), 256)
  }

  // ----- they undo each other -------------------------------------------------------------------------------------

  lemma LettersValues(d: seq<nat>)
    requires Digits(d, 58)
    ensures InAlphabet(Letters(d)) && Values(Letters(d)) == d && (d != [] && d[0] != 0 ==> Letters(d)[0] != '1')
  {
    hide Letter, Value;
    forall i | 0 <= i < |d|
      ensures Value(Letters(d)[i]) == d[i]
    {
      LetterValue(d[i]);
    }
    if d != [] {
      LetterValue(d[0]);
    }
  }

  lemma ValuesLetters(s: string)
    requires InAlphabet(s)
    ensures Letters(Values(s)) == s && (s != [] && s[0] != '1' ==> Values(s)[0] != 0)
  {
    hide Letter, Value;
    forall i | 0 <= i < |s|
      ensures Letters(Values(s))[i] == s[i]
    {
      ValueLetter(s[i]);
    }
    if s != [] {
      ValueLetter(s[0]);
    }
  }

  lemma OneIsLetter()
    ensures Value('1') == 0 && Letter(0) == '1'
  {}

  /** Decoding inverts encoding for every byte string. */
  lemma DecodeEncoded(vch: seq<nat>)
    requires Digits(vch, 256)
    ensures InAlphabet(Encoded(vch)) && Decoded(Encoded(vch)) == vch
  {
    hide Num, Letter, Value, ToBase;
    var z := Leading(vch, 0);
    var rest := vch[z..];
    var d := ToBase(Num(rest, 256), 58);
    var s := Encoded(vch);
    LettersValues(d);
    OneIsLetter();
    assert InAlphabet(s);
    LeadingIs(s, '1', z);
    assert s[z..] == Letters(d);
    NumToBase(Num(rest, 256), 58);
    ToBaseNum(rest, 256);
    assert vch == Copies(0, z) + rest;
  }

  /** Encoding inverts decoding for every text over the alphabet. */
  lemma EncodeDecoded(s: string)
    requires InAlphabet(s)
    ensures Digits(Decoded(s), 256) && Encoded(Decoded(s)) == s
  {
    hide Num, Letter, Value, ToBase;
    var z := Leading(s, '1');
    var rest := s[z..];
    var d := ToBase(Num(Values(rest), 58), 256);
    var vch := Decoded(s);
    ValuesLetters(rest);
    LeadingIs(vch, 0, z);
    assert vch[z..] == d;
    NumToBase(Num(Values(rest), 58), 256);
    ToBaseNum(Values(rest), 58);
    assert s == Copies('1', z) + rest;
  }

  // ----- the methods ------------------------------------------------------------------------------------------------

  /** The digits after the leading zeros of a buffer are those of its number. */
  lemma Stripped(b: seq<nat>, base: nat, v: nat, length: nat, it: nat)
    requires base >= 2 && Holds(b, base, v, length) && |b| - length <= it <= |b|
    requires (forall i :: |b| - length <= i < it ==> b[i] == 0) && (it < |b| ==> b[it] != 0)
    ensures b[it..] == ToBase(v, base)
  {
    hide Num, ToBase;
    NumCat(b[..it], b[it..], base);
    assert b == b[..it] + b[it..];
    NumZeros(b[..it], base);
    ToBaseNum(b[it..], base);
  }

  lemma EmptyBuffer(b: seq<nat>, base: nat)
    requires base >= 2 && forall i :: 0 <= i < |b| ==> b[i] == 0
    ensures Holds(b, base, 0, 0)
  {
    NumZeros(b, base);
  }

  /** The number stays within the buffer: it never exceeds that of the whole input. */
  lemma PrefixRoom(s: seq<nat>, base: nat, k: nat, limit: nat)
    requires base >= 1 && Digits(s, base) && k < |s| && Pow(base, |s|) <= limit
    ensures Num(s[..k], base) * base + s[k] < limit && Num(s[..k + 1], base) == Num(s[..k], base) * base + s[k]
  {
    assert s[..k + 1][..k] == s[..k];
    NumBound(s[..k + 1], base);
    PowGrows(base, k + 1, |s|);
  }

  method EncodeBase58(vch: seq<nat>) returns (str: string)
    requires Digits(vch, 256)
    ensures str == Encoded(vch)
  {
    hide Num, Pow, Holds, ToBase, Letter;
    var zeroes := 0;
    while zeroes < |vch| && vch[zeroes] == 0
      invariant zeroes <= |vch| && forall i :: 0 <= i < zeroes ==> vch[i] == 0
    {
      zeroes := zeroes + 1;
    }
    LeadingIs(vch, 0, zeroes);
    var rest := vch[zeroes..];
    var size := |rest| * 138 / 100 + 1;
    EncodeRoom(|rest|);
    var b58 := new nat[size](i => 0);
    EmptyBuffer(b58[..], 58);
    NumNone(256);
    var length := 0;
    for k := 0 to |rest|
      invariant Holds(b58[..], 58, Num(rest[..k], 256), length)
    {
      PrefixRoom(rest, 256, k, Pow(58, size));
      length := MultiplyAdd(b58, 58, 256, rest[k], length, Num(rest[..k], 256));
    }
    assert rest[..|rest|] == rest;
    var digits := Strip(b58, 58, length, Num(rest, 256));
    str := Spell(zeroes, digits);
  }

  method Spell(zeroes: nat, digits: seq<nat>) returns (str: string)
    requires Digits(digits, 58)
    ensures str == Copies('1', zeroes) + Letters(digits)
  {
    hide Letter;
    str := "";
    for i := 0 to zeroes
      invariant str == Copies('1', i)
    {
      str := str + ['1'];
    }
    for i := 0 to |digits|
      invariant str == Copies('1', zeroes) + Letters(digits)[..i]
    {
      str := str + [Letter(digits[i])];
    }
  }

  lemma NumNone(base: nat)
    ensures Num([], base) == 0
  {}

  /** Skip leading zeros. */
  method Strip(b: array<nat>, base: nat, length: nat, ghost v: nat) returns (d: seq<nat>)
    requires base >= 2 && Holds(b[..], base, v, length)
    ensures d == ToBase(v, base)
  {
    hide Num, ToBase;
    var it := b.Length - length;
    while it < b.Length && b[it] == 0
      invariant b.Length - length <= it <= b.Length && forall i :: b.Length - length <= i < it ==> b[i] == 0
    {
      it := it + 1;
    }
    Stripped(b[..], base, v, length, it);
    d := b[it..];
    assert d == b[..][it..];
  }

  /** The next position at or after i that holds no white space. */
  ghost function SkipSpaces(s: string, i: nat): (r: nat)
    requires i <= |s|
    ensures i <= r <= |s| && (forall j :: i <= j < r ==> IsSpace(s[j])) && (r < |s| ==> !IsSpace(s[r]))
    decreases |s| - i
  {
    if i < |s| && IsSpace(s[i]) then SkipSpaces(s, i + 1) else i
  }

  /** The next position at or after i that holds white space. */
  ghost function NextSpace(s: string, i: nat): (r: nat)
    requires i <= |s|
    ensures i <= r <= |s| && (forall j :: i <= j < r ==> !IsSpace(s[j])) && (r < |s| ==> IsSpace(s[r]))
    decreases |s| - i
  {
    if i < |s| && !IsSpace(s[i]) then NextSpace(s, i + 1) else i
  }

  method Skip(s: string, i: nat) returns (r: nat)
    requires i <= |s|
    ensures r == SkipSpaces(s, i)
  {
    r := i;
    while r < |s| && IsSpace(s[r])
      invariant i <= r <= |s| && SkipSpaces(s, r) == SkipSpaces(s, i)
    {
      r := r + 1;
    }
  }

  /**
   * DecodeBase58: white space around the text is ignored; the text must consist of characters of the
   * alphabet, and nothing but white space may follow it.
   */
  method DecodeBase58(psz: string) returns (ok: bool, vch: seq<nat>)
    ensures var a := SkipSpaces(psz, 0);
            var b := NextSpace(psz, a);
            && (ok <==> InAlphabet(psz[a..b]) && SkipSpaces(psz, b) == |psz|)
            && (ok ==> vch == Decoded(psz[a..b]))
  {
    hide Num, Pow, Holds, ToBase, Value, SkipSpaces, NextSpace, IsSpace;
    ghost var a := SkipSpaces(psz, 0);
    ghost var b := NextSpace(psz, a);
    var at := Skip(psz, 0);
    var zeroes;
    zeroes, at := SkipOnes(psz, at);
    var okBody, b256, length, end := ReadDigits(psz, at, b);
    OnesFirst(psz, a, at, b);
    if !okBody {
      return false, [];
    }
    var last := Skip(psz, end);
    if last != |psz| {
      return false, [];
    }
    var digits := Strip(b256, 256, length, Num(Values(psz[at..b]), 58));
    vch := Prepend(zeroes, digits);
    return true, vch;
  }

  /** Skip and count leading ones. */
  method SkipOnes(psz: string, a: nat) returns (zeroes: nat, at: nat)
    requires a <= |psz|
    ensures a <= at <= NextSpace(psz, a) && zeroes == at - a && NextSpace(psz, at) == NextSpace(psz, a)
    ensures (forall i :: a <= i < at ==> psz[i] == '1') && (at < |psz| ==> psz[at] != '1')
  {
    zeroes, at := 0, a;
    while at < |psz| && psz[at] == '1'
      invariant a <= at <= |psz| && zeroes == at - a && forall i :: a <= i < at ==> psz[i] == '1'
    {
      at := at + 1;
      zeroes := zeroes + 1;
    }
    SameEnd(psz, a, at);
  }

  method Prepend(zeroes: nat, digits: seq<nat>) returns (vch: seq<nat>)
    ensures vch == Copies(0, zeroes) + digits
  {
    vch := [];
    for i := 0 to zeroes
      invariant vch == Copies(0, i)
    {
      vch := vch + [0];
    }
    vch := vch + digits;
  }

  lemma {:induction false} SameEnd(psz: string, a: nat, at: nat)
    requires a <= at <= |psz| && forall i :: a <= i < at ==> !IsSpace(psz[i])
    ensures NextSpace(psz, at) == NextSpace(psz, a)
    decreases at - a
  {
    if a < at {
      SameEnd(psz, a + 1, at);
    }
  }

  /** The text is its leading ones and the rest. */
  lemma OnesFirst(psz: string, a: nat, at: nat, b: nat)
    requires a <= at <= b <= |psz| && (forall i :: a <= i < at ==> psz[i] == '1') && (at < b ==> psz[at] != '1')
    ensures InAlphabet(psz[a..b]) <==> InAlphabet(psz[at..b])
    ensures Leading(psz[a..b], '1') == at - a && psz[a..b][at - a..] == psz[at..b]
  {
    hide Value;
    var core, rest := psz[a..b], psz[at..b];
    assert core[at - a..] == rest;
    LeadingIs(core, '1', at - a);
    OneIsLetter();
    forall i | 0 <= i < |core|
      ensures i < at - a ==> Value(core[i]) != -1
      ensures i >= at - a ==> core[i] == rest[i - (at - a)]
    {}
    if InAlphabet(core) {
      forall i | 0 <= i < |rest|
        ensures Value(rest[i]) != -1
      {
        assert core[i + (at - a)] == rest[i];
      }
    }
  }

  /** The characters up to the next white space, as a number in the buffer. */
  method ReadDigits(psz: string, start: nat, ghost b: nat) returns (ok: bool, b256: array<nat>, length: nat, at: nat)
    requires start <= b <= |psz| && b == NextSpace(psz, start)
    ensures ok <==> InAlphabet(psz[start..b])
    ensures ok ==> at == b && fresh(b256) && Holds(b256[..], 256, Num(Values(psz[start..b]), 58), length)
  {
    hide Num, Pow, Holds, Value, Read;
    var size := (|psz| - start) * 733 / 1000 + 1;
    BodyRoom(|psz| - start, b - start, size);
    b256 := new nat[size](i => 0);
    EmptyBuffer(b256[..], 256);
    NumNone(58);
    length := 0;
    at := start;
    ghost var done: seq<nat> := [];
    ReadNone(psz, start);
    while at < |psz| && !IsSpace(psz[at])
      invariant start <= at <= b && |done| == at - start && Read(psz, start, done)
      invariant Holds(b256[..], 256, Num(done, 58), length) && fresh(b256) && b256.Length == size
    {
      var ch := Value(psz[at]);
      if ch == -1 {
        NotInAlphabet(psz, start, b, at);
        return false, b256, length, at;
      }
      ReadNext(psz, start, done);
      DigitRoom(done, ch, b - start, Pow(256, size));
      length := MultiplyAdd(b256, 256, 58, ch, length, Num(done, 58));
      done := done + [ch];
      at := at + 1;
    }
    ReadAll(psz, start, done);
    return true, b256, length, at;
  }

  /** The values of the characters read so far. */
  ghost predicate Read(psz: string, start: nat, done: seq<nat>) {
    && start + |done| <= |psz| && Digits(done, 58)
    && forall i :: 0 <= i < |done| ==> Value(psz[start + i]) == done[i]
  }

  lemma ReadNone(psz: string, start: nat)
    requires start <= |psz|
    ensures Read(psz, start, [])
  {}

  lemma ReadNext(psz: string, start: nat, done: seq<nat>)
    requires Read(psz, start, done) && start + |done| < |psz| && Value(psz[start + |done|]) != -1
    ensures var ch := Value(psz[start + |done|]); 0 <= ch < 58 && Digits(done, 58) && Read(psz, start, done + [ch])
  {
    hide Value;
    ValueLetter(psz[start + |done|]);
  }

  lemma ReadAll(psz: string, start: nat, done: seq<nat>)
    requires Read(psz, start, done)
    ensures InAlphabet(psz[start..start + |done|]) && Values(psz[start..start + |done|]) == done
  {
    hide Value;
    var s := psz[start..start + |done|];
    forall i | 0 <= i < |done|
      ensures Value(s[i]) == done[i] != -1
    {
      assert s[i] == psz[start + i];
    }
  }

  lemma NotInAlphabet(psz: string, start: nat, b: nat, at: nat)
    requires start <= at < b <= |psz| && Value(psz[at]) == -1
    ensures !InAlphabet(psz[start..b])
  {
    assert psz[start..b][at - start] == psz[at];
  }

  lemma BodyRoom(total: nat, n: nat, size: nat)
    requires n <= total && size == total * 733 / 1000 + 1
    ensures Pow(58, n) <= Pow(256, size)
  {
    hide Pow;
    DecodeRoom(total);
    PowGrows(58, n, total);
  }

  lemma DigitRoom(s: seq<nat>, d: nat, n: nat, limit: nat)
    requires Digits(s, 58) && d < 58 && |s| < n && Pow(58, n) <= limit
    ensures Num(s, 58) * 58 + d < limit && Num(s + [d], 58) == Num(s, 58) * 58 + d
  {
    NumLast(s, d, 58);
    NumBound(s + [d], 58);
    PowGrows(58, |s| + 1, n);
  }

  /** Every byte string survives encoding and decoding. */
  method EncodeThenDecode(vch: seq<nat>) returns (ok: bool, vch': seq<nat>)
    requires Digits(vch, 256)
    ensures ok && vch' == vch
  {
    hide Encoded, Decoded, Value;
    var s := EncodeBase58(vch);
    DecodeEncoded(vch);
    NoSpaces(s);
    ok, vch' := DecodeBase58(s);
  }

  /** Text over the alphabet holds no white space. */
  lemma NoSpaces(s: string)
    requires InAlphabet(s)
    ensures SkipSpaces(s, 0) == 0 && NextSpace(s, 0) == |s| && SkipSpaces(s, |s|) == |s| && s[0..|s|] == s
  {
    hide Value;
    forall i | 0 <= i < |s|
      ensures !IsSpace(s[i])
    {
      ValueLetter(s[i]);
    }
  }

  /** Every text without white space that decodes is the encoding of the result. */
  method DecodeThenEncode(s: string) returns (ok: bool, again: string)
    requires forall i :: 0 <= i < |s| ==> !IsSpace(s[i])
    ensures ok <==> InAlphabet(s)
    ensures ok ==> again == s
  {
    hide Encoded, Decoded, Value;
    var vch;
    assert SkipSpaces(s, 0) == 0 && NextSpace(s, 0) == |s| && s[0..|s|] == s;
    ok, vch := DecodeBase58(s);
    again := "";
    if ok {
      EncodeDecoded(s);
      again := EncodeBase58(vch);
    }
  }
}
