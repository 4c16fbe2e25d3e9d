/**
 * Bech32 strings (Encode and Decode in src/bech32.cpp): the two functions undo each other.
 */
module Bech32Text {
  import opened BitOps
  import opened Bech32
  import Bech32Field

  // ----- the character set ----------------------------------------------------------------------------

  /** The character of a five-bit value. */
  function Letter(v: nat): char {
    match v
    case 0 => 'q' case 1 => 'p' case 2 => 'z' case 3 => 'r' case 4 => 'y' case 5 => '9' case 6 => 'x'
    case 7 => '8' case 8 => 'g' case 9 => 'f' case 10 => '2' case 11 => 't' case 12 => 'v' case 13 => 'd'
    case 14 => 'w' case 15 => '0' case 16 => 's' case 17 => '3' case 18 => 'j' case 19 => 'n' case 20 => '5'
    case 21 => '4' case 22 => 'k' case 23 => 'h' case 24 => 'c' case 25 => 'e' case 26 => '6' case 27 => 'm'
    case 28 => 'u' case 29 => 'a' case 30 => '7' case 31 => 'l'
    case _ => '?'
  }

  /** The value of a character, in either case; -1 for characters outside the set. */
  function LetterValue(c: char): int {
    match c
    case '0' => 15 case '2' => 10 case '3' => 17 case '4' => 21 case '5' => 20 case '6' => 26 case '7' => 30
    case '8' => 7 case '9' => 5 case 'A' => 29 case 'C' => 24 case 'D' => 13 case 'E' => 25 case 'F' => 9
    case 'G' => 8 case 'H' => 23 case 'J' => 18 case 'K' => 22 case 'L' => 31 case 'M' => 27 case 'N' => 19
    case 'P' => 1 case 'Q' => 0 case 'R' => 3 case 'S' => 16 case 'T' => 11 case 'U' => 28 case 'V' => 12
    case 'W' => 14 case 'X' => 6 case 'Y' => 4 case 'Z' => 2 case 'a' => 29 case 'c' => 24 case 'd' => 13
    case 'e' => 25 case 'f' => 9 case 'g' => 8 case 'h' => 23 case 'j' => 18 case 'k' => 22 case 'l' => 31
    case 'm' => 27 case 'n' => 19 case 'p' => 1 case 'q' => 0 case 'r' => 3 case 's' => 16 case 't' => 11
    case 'u' => 28 case 'v' => 12 case 'w' => 14 case 'x' => 6 case 'y' => 4 case 'z' => 2
    case _ => -1
  }

  predicate IsLower(c: char) { 'a' <= c <= 'z' }
  predicate IsUpper(c: char) { 'A' <= c <= 'Z' }
  predicate Printable(c: char) { 33 <= c as int <= 126 }

  function LowerCase(c: char): char {
    if IsUpper(c) then (c as int - 'A' as int + 'a' as int) as char else c
  }

  /** The lower-case letters are what the upper-case letters are turned into. */
  lemma LowerIff(c: char)
    ensures IsLower(c) <==> exists u :: IsUpper(u) && LowerCase(u) == c
  {
    if IsLower(c) {
      var u := (c as int - 'a' as int + 'A' as int) as char;
      assert IsUpper(u) && LowerCase(u) == c;
    }
  }

  ghost predicate Matches(v: nat, c: char) {
    LetterValue(c) == v && c != '1' && !IsUpper(c) && Printable(c)
  }

  lemma Letters0(v: nat)
    requires v < 8
    ensures Matches(v, Letter(v))
  {}

  lemma Letters8(v: nat)
    requires 8 <= v < 16
    ensures Matches(v, Letter(v))
  {}

  lemma Letters16(v: nat)
    requires 16 <= v < 24
    ensures Matches(v, Letter(v))
  {}

  lemma Letters24(v: nat)
    requires 24 <= v < 32
    ensures Matches(v, Letter(v))
  {}

  /** The value table inverts the character set. */
  lemma LetterRoundTrip(v: nat)
    requires v < 32
    ensures LetterValue(Letter(v)) == v && Letter(v) != '1' && !IsUpper(Letter(v)) && Printable(Letter(v))
  {
    hide Letter, LetterValue;
    if v < 8 {
      Letters0(v);
    } else if v < 16 {
      Letters8(v);
    } else if v < 24 {
      Letters16(v);
    } else {
      Letters24(v);
    }
  }

  ghost predicate Inverse(c: char) {
    LetterValue(c) != -1 ==> 0 <= LetterValue(c) < 32 && Letter(LetterValue(c)) == LowerCase(c) && c != '1'
  }

  lemma UpperInverse(c: char)
    requires IsUpper(c)
    ensures Inverse(c)
  {}

  lemma LowerInverse(c: char)
    requires IsLower(c)
    ensures Inverse(c)
  {}

  lemma OtherInverse(c: char)
    requires !IsLower(c) && !IsUpper(c)
    ensures Inverse(c)
  {}

  /** The character set inverts the value table up to case. */
  lemma ValueRoundTrip(c: char)
    requires LetterValue(c) != -1
    ensures 0 <= LetterValue(c) < 32 && Letter(LetterValue(c)) == LowerCase(c) && c != '1'
  {
    hide Letter, LetterValue;
    if IsUpper(c) {
      UpperInverse(c);
    } else if IsLower(c) {
      LowerInverse(c);
    } else {
      OtherInverse(c);
    }
  }

  // ----- checksums of strings ---------------------------------------------------------------------------------

  /** A string of 8-bit characters. */
  type Text = s: string | forall i :: 0 <= i < |s| ==> s[i] as int < 256

  /** The high bits of the characters, a zero, and the low bits. */
  ghost function Expanded(hrp: Text): (r: seq<nat>)
    ensures |r| == 2 * |hrp| + 1
  {
    seq(|hrp|, i requires 0 <= i < |hrp| => hrp[i] as int / 32) + [0] + seq(|hrp|, i requires 0 <= i < |hrp| => hrp[i] as int % 32)
  }

  /** ExpandHRP */
  method ExpandHRP(hrp: Text) returns (r: seq<nat>)
    ensures r == Expanded(hrp)
  {
    var n := |hrp|;
    var ret := new nat[2 * n + 1];
    for i := 0 to n
      invariant forall j :: 0 <= j < i ==> ret[j] == hrp[j] as int / 32 && ret[j + n + 1] == hrp[j] as int % 32
    {
      ret[i] := hrp[i] as int / 32;
      ret[i + n + 1] := hrp[i] as int % 32;
    }
    ret[n] := 0;
    r := ret[..];
    assert r[n + 1..] == Expanded(hrp)[n + 1..] && r[..n] == Expanded(hrp)[..n];
  }

  lemma ExpandedSymbols(hrp: Text)
    ensures Symbols(Expanded(hrp))
  {}

  ghost predicate ChecksumOk(hrp: Text, values: seq<nat>) {
    Run(1, Expanded(hrp) + values) == 1
  }

  method VerifyChecksum(hrp: Text, values: seq<nat>) returns (ok: bool)
    ensures ok <==> ChecksumOk(hrp, values)
  {
    hide Expanded, Run;
    var e := ExpandHRP(hrp);
    var c := PolyMod(e + values);
    ok := c == 1;
  }

  ghost function Checksum(hrp: Text, values: seq<nat>): (r: seq<nat>)
    ensures |r| == 6
  {
    Digits(BitXor(Run(1, Expanded(hrp) + values + ZEROS), 1))
  }

  /** CreateChecksum */
  method CreateChecksum(hrp: Text, values: seq<nat>) returns (ret: seq<nat>)
    ensures ret == Checksum(hrp, values)
  {
    hide Expanded, Run, BitXor;
    var enc := ExpandHRP(hrp);
    enc := enc + values;
    enc := enc + ZEROS;
    var mod := PolyMod(enc);
    mod := BitXor(mod, 1);
    ret := [];
    for i := 0 to 6
      invariant ret == Digits(mod)[..i]
    {
      DigitAt(mod, i);
      ret := ret + [mod / Pow2(5 * (5 - i)) % 32];
    }
  }

  lemma DigitAt(m: nat, i: nat)
    requires i < 6
    ensures Digits(m)[i] == m / Pow2(5 * (5 - i)) % 32
  {
    Sizes();
    Pow2Small();
    Pow2Add(5, 5);
    Pow2Add(10, 5);
    Pow2Add(15, 5);
    hide Pow2;
    assert i == 0 || i == 1 || i == 2 || i == 3 || i == 4 || i == 5;
  }

  /** The checksum is the one list of six symbols that makes the whole verify. */
  lemma ChecksumIff(hrp: Text, values: seq<nat>, x: seq<nat>)
    requires Symbols(values) && |x| == 6 && Symbols(x)
    ensures ChecksumOk(hrp, values + x) <==> x == Checksum(hrp, values)
  {
    hide Run, Expanded, BitXor, Digits;
    var enc := Expanded(hrp) + values;
    ExpandedSymbols(hrp);
    RunBound(1, enc);
    assert Expanded(hrp) + (values + x) == enc + x;
    RunCat(1, enc, x);
    RunCat(1, enc, ZEROS);
    ChecksumUnique(Run(1, enc), x);
  }

  lemma ChecksumSymbols(hrp: Text, values: seq<nat>)
    requires Symbols(values)
    ensures Symbols(Checksum(hrp, values))
  {
    hide Run, Expanded, BitXor;
    var enc := Expanded(hrp) + values + ZEROS;
    ExpandedSymbols(hrp);
    RunBound(1, enc);
    Sizes();
    assert 1 < Pow2(30);
    OrBound(Run(1, enc), 1, 30);
    PackedDigits(BitXor(Run(1, enc), 1));
  }

  /** Values that differ in exactly one symbol never both verify, at any length. */
  lemma SingleErrorRejected(hrp: Text, values: seq<nat>, values': seq<nat>, i: nat)
    requires |values| == |values'| && i < |values| && values[i] != values'[i] && Symbols(values) && Symbols(values')
    requires forall j :: 0 <= j < |values| && j != i ==> values[j] == values'[j]
    ensures !(ChecksumOk(hrp, values) && ChecksumOk(hrp, values'))
  {
    hide Run;
    SingleErrorDetected(Expanded(hrp) + values, Expanded(hrp) + values', |Expanded(hrp)| + i);
  }

  /** Values that differ in one to three of at most 1023 symbols never both verify. */
  lemma ErrorsRejected(hrp: Text, values: seq<nat>, values': seq<nat>, d: set<nat>)
    requires 3 <= |values| == |values'| <= 1023 && Symbols(values) && Symbols(values')
    requires 1 <= |d| <= 3 && forall m: nat :: m in d <==> m < |values| && values[m] != values'[m]
    ensures !(ChecksumOk(hrp, values) && ChecksumOk(hrp, values'))
  {
    hide Run, Expanded;
    ExpandedSymbols(hrp);
    var i, j, k := Bech32Field.Places(d, |values|);
    var m :| m in d;
    var n, s, t := |Expanded(hrp)|, Expanded(hrp) + values, Expanded(hrp) + values';
    assert s[n + i] == values[i] && s[n + j] == values[j] && s[n + k] == values[k];
    assert t[n + i] == values'[i] && t[n + j] == values'[j] && t[n + k] == values'[k];
    Bech32Field.ThreeErrorsDetected(s, t, n + i, n + j, n + k);
  }

  /** One wrong character in a prefix of up to 1021 is detected as well. */
  lemma PrefixErrorRejected(hrp: Text, hrp': Text, values: seq<nat>, i: nat)
    requires |hrp| == |hrp'| <= 1021 && i < |hrp| && hrp[i] != hrp'[i] && Symbols(values)
    requires forall j :: 0 <= j < |hrp| && j != i ==> hrp[j] == hrp'[j]
    ensures !(ChecksumOk(hrp, values) && ChecksumOk(hrp', values))
  {
    hide Run;
    var n, x, y := |hrp|, hrp[i] as int, hrp'[i] as int;
    assert x == 32 * (x / 32) + x % 32 && y == 32 * (y / 32) + y % 32;
    Bech32Field.ThreeErrorsDetected(Expanded(hrp) + values, Expanded(hrp') + values, i, n, n + 1 + i);
  }

  // ----- strings ---------------------------------------------------------------------------------------------

  ghost function Letters(v: seq<nat>): (r: string)
    ensures |r| == |v|
  {
    seq(|v|, i requires 0 <= i < |v| => Letter(v[i]))
  }

  function Lowered(s: string): (r: string)
    ensures |r| == |s| && forall i :: 0 <= i < |s| ==> r[i] == LowerCase(s[i])
  {
    seq(|s|, i requires 0 <= i < |s| => LowerCase(s[i]))
  }

  lemma LoweredText(s: Text)
    ensures forall i :: 0 <= i < |s| ==> Lowered(s)[i] as int < 256
  {}

  /** The human-readable part, the separator, then values and checksum in letters. */
  ghost function Encoded(hrp: Text, values: seq<nat>): (r: string)
    ensures |r| == |hrp| + 1 + |values| + 6
  {
    hrp + "1" + Letters(values + Checksum(hrp, values))
  }

  /** Encode; the human-readable part must not contain upper-case letters. */
  method Encode(hrp: Text, values: seq<nat>) returns (ret: string)
    requires Symbols(values) && forall i :: 0 <= i < |hrp| ==> !IsUpper(hrp[i])
    ensures ret == Encoded(hrp, values)
  {
    hide Letter, Checksum;
    var checksum := CreateChecksum(hrp, values);
    var combined := values + checksum;
    ret := hrp + "1";
    for i := 0 to |combined|
      invariant ret == hrp + "1" + Letters(combined)[..i]
    {
      ret := ret + [Letter(combined[i])];
    }
  }

  ghost predicate Letterlike(s: string) {
    forall i :: 0 <= i < |s| ==> LetterValue(s[i]) != -1
  }

  ghost function Values(s: string): (r: seq<nat>)
    requires Letterlike(s)
    ensures |r| == |s| && Symbols(r) && forall i :: 0 <= i < |s| ==> r[i] == LetterValue(s[i])
  {
    forall c | LetterValue(c) != -1
      ensures 0 <= LetterValue(c) < 32
    {
      ValueRoundTrip(c);
    }
    seq(|s|, i requires 0 <= i < |s| => LetterValue(s[i]))
  }

  ghost predicate SingleCase(s: string) {
    !((exists i :: 0 <= i < |s| && IsLower(s[i])) && (exists i :: 0 <= i < |s| && IsUpper(s[i])))
  }

  ghost predicate AllPrintable(s: string) {
    forall i :: 0 <= i < |s| ==> Printable(s[i])
  }

  /** The last separator. */
  ghost predicate LastOne(s: string, pos: int) {
    0 <= pos < |s| && s[pos] == '1' && forall j :: pos < j < |s| ==> s[j] != '1'
  }

  /** A well-formed string with its separator at pos. */
  ghost predicate Parses(s: Text, pos: int) {
    && AllPrintable(s) && SingleCase(s) && LastOne(s, pos)
    && |s| <= 90 && 1 <= pos && pos + 7 <= |s| && Letterlike(s[pos + 1..])
    && LoweredIsText(s[..pos]) && ChecksumOk(Lowered(s[..pos]), Values(s[pos + 1..]))
  }

  ghost predicate LoweredIsText(s: string) {
    forall i :: 0 <= i < |s| ==> Lowered(s)[i] as int < 256
  }

  /** Characters are printable and of one case. */
  method CheckCase(str: Text) returns (ok: bool)
    ensures ok <==> AllPrintable(str) && SingleCase(str)
  {
    var lower, upper := false, false;
    for i := 0 to |str|
      invariant forall j :: 0 <= j < i ==> Printable(str[j])
      invariant lower <==> exists j :: 0 <= j < i && IsLower(str[j])
      invariant upper <==> exists j :: 0 <= j < i && IsUpper(str[j])
    {
      var c := str[i];
      if IsLower(c) {
        lower := true;
      } else if IsUpper(c) {
        upper := true;
      } else if c as int < 33 || c as int > 126 {
        assert !Printable(str[i]);
        return false;
      }
    }
    ok := !(lower && upper);
  }

  /** rfind */
  method FindLast(str: string) returns (pos: int)
    ensures if pos == -1 then '1' !in str else LastOne(str, pos)
  {
    pos := |str| - 1;
    while pos >= 0
      invariant -1 <= pos < |str| && forall j :: pos < j < |str| ==> str[j] != '1'
    {
      if str[pos] == '1' {
        return;
      }
      pos := pos - 1;
    }
  }

  /** The values after the separator. */
  method ReadValues(s: string) returns (ok: bool, values: seq<nat>)
    ensures ok <==> Letterlike(s)
    ensures ok ==> values == Values(s)
  {
    hide LetterValue;
    values := [];
    for i := 0 to |s|
      invariant |values| == i && forall j :: 0 <= j < i ==> LetterValue(s[j]) == values[j]
    {
      var rev := LetterValue(s[i]);
      if rev == -1 {
        assert LetterValue(s[i]) == -1;
        return false, values;
      }
      ValueRoundTrip(s[i]);
      values := values + [rev];
    }
    assert Letterlike(s);
    return true, values;
  }

  /** Decode: the parts of a well-formed string, and the empty pair for every other. */
  method Decode(str: Text) returns (hrp: string, data: seq<nat>)
    ensures forall pos :: Parses(str, pos) ==> hrp == Lowered(str[..pos]) && data == Values(str[pos + 1..])[..|str| - pos - 7]
    ensures (forall pos :: !Parses(str, pos)) ==> hrp == "" && data == []
  {
    hide LetterValue, LowerCase, ChecksumOk, AllPrintable, SingleCase;
    var ok := CheckCase(str);
    var sep := FindLast(str);
    forall p | LastOne(str, p)
      ensures p == sep
    {}
    if !ok {
      return "", [];
    }
    if |str| > 90 || sep == -1 || sep == 0 || sep + 7 > |str| {
      return "", [];
    }
    var values;
    ok, values := ReadValues(str[sep + 1..]);
    if !ok {
      return "", [];
    }
    hrp := Lowered(str[..sep]);
    LoweredText(str[..sep]);
    ok := VerifyChecksum(hrp, values);
    if !ok {
      return "", [];
    }
    data := values[..|values| - 6];
    assert Parses(str, sep);
  }

  // ----- encoding and decoding undo each other --------------------------------------------------------------------

  /** What can be encoded and read back: a non-empty, printable part without upper-case letters, within the length limit. */
  ghost predicate Encodable(hrp: Text, values: seq<nat>) {
    && |hrp| >= 1 && |hrp| + 7 + |values| <= 90 && Symbols(values)
    && forall i :: 0 <= i < |hrp| ==> Printable(hrp[i]) && !IsUpper(hrp[i])
  }

  lemma LettersBack(v: seq<nat>)
    requires Symbols(v)
    ensures Letterlike(Letters(v)) && Values(Letters(v)) == v && '1' !in Letters(v)
    ensures forall i :: 0 <= i < |v| ==> Printable(Letters(v)[i]) && !IsUpper(Letters(v)[i])
  {
    hide Letter, LetterValue;
    forall i | 0 <= i < |v|
      ensures LetterValue(Letters(v)[i]) == v[i] && Letters(v)[i] != '1' && Printable(Letters(v)[i]) && !IsUpper(Letters(v)[i])
    {
      LetterRoundTrip(v[i]);
    }
  }

  lemma AlreadyLower(s: string)
    requires forall i :: 0 <= i < |s| ==> !IsUpper(s[i])
    ensures Lowered(s) == s
  {}

  /** An encoded string is well formed, with its separator after the human-readable part. */
  lemma EncodedParses(hrp: Text, values: seq<nat>)
    requires Encodable(hrp, values)
    ensures var s := Encoded(hrp, values);
            && (forall i :: 0 <= i < |s| ==> s[i] as int < 256) && Parses(s, |hrp|)
            && Lowered(s[..|hrp|]) == hrp && Values(s[|hrp| + 1..]) == values + Checksum(hrp, values)
  {
    hide Letter, LetterValue, Checksum, ChecksumOk, Letters, LowerCase;
    var v := values + Checksum(hrp, values);
    var s := Encoded(hrp, values);
    ChecksumSymbols(hrp, values);
    ChecksumIff(hrp, values, Checksum(hrp, values));
    LettersBack(v);
    assert s[..|hrp|] == hrp && s[|hrp| + 1..] == Letters(v);
    AlreadyLower(hrp);
    forall i | 0 <= i < |s|
      ensures Printable(s[i]) && !IsUpper(s[i])
    {
      if i > |hrp| {
        assert s[i] == Letters(v)[i - |hrp| - 1];
      }
    }
    forall j | |hrp| < j < |s|
      ensures s[j] != '1'
    {
      assert s[j] == Letters(v)[j - |hrp| - 1];
    }
  }

  /** A well-formed string is the encoding of its parts, up to case. */
  lemma ParsesEncoded(s: Text, pos: int)
    requires Parses(s, pos)
    ensures Encoded(Lowered(s[..pos]), Values(s[pos + 1..])[..|s| - pos - 7]) == Lowered(s)
  {
    hide Letter, LetterValue, Checksum, ChecksumOk, LowerCase;
    var h, v := Lowered(s[..pos]), Values(s[pos + 1..]);
    var n := |s| - pos - 7;
    assert v == v[..n] + v[n..];
    ChecksumIff(h, v[..n], v[n..]);
    forall i | 0 <= i < |v|
      ensures Letters(v)[i] == LowerCase(s[pos + 1 + i])
    {
      assert LetterValue(s[pos + 1..][i]) != -1;
      ValueRoundTrip(s[pos + 1 + i]);
    }
    assert LowerCase('1') == '1' by { LowerOne(); }
    var e := Encoded(h, v[..n]);
    assert e == h + "1" + Letters(v);
    assert e == Lowered(s);
  }

  lemma LowerOne()
    ensures LowerCase('1') == '1'
  {}

  /** Decoding an encoded string returns what was encoded. */
  method EncodeThenDecode(hrp: Text, values: seq<nat>) returns (hrp': string, values': seq<nat>)
    requires Encodable(hrp, values)
    ensures hrp' == hrp && values' == values
  {
    hide Parses, Encoded, Values, Checksum;
    var s := Encode(hrp, values);
    EncodedParses(hrp, values);
    hrp', values' := Decode(s);
    EncodedSize(hrp, values);
    assert (values + Checksum(hrp, values))[..|values|] == values;
  }

  lemma EncodedSize(hrp: Text, values: seq<nat>)
    ensures |Encoded(hrp, values)| == |hrp| + 7 + |values|
  {}

  /** Whatever Decode accepts is the encoding of its result, up to case; what it refuses is not well formed. */
  method DecodeThenEncode(str: Text) returns (accepted: bool, again: string)
    ensures accepted <==> exists pos :: Parses(str, pos)
    ensures accepted ==> again == Lowered(str)
  {
    hide Encoded, Values, Checksum, ChecksumOk, LetterValue, AllPrintable, SingleCase, Letterlike;
    var hrp, data := Decode(str);
    accepted := hrp != "";
    again := "";
    if accepted {
      ghost var pos :| Parses(str, pos);
      ParsesEncoded(str, pos);
      forall i | 0 <= i < |hrp|
        ensures !IsUpper(hrp[i])
      {
        NeverUpper(str[..pos][i]);
      }
      again := Encode(hrp, data);
    }
  }

  lemma NeverUpper(c: char)
    ensures !IsUpper(LowerCase(c))
  {}
}
