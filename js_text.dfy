/** The JavaScript string operations the application relies on, with the
    semantics ECMA-262 gives them: String.prototype.trim, split with a
    string separator, join, parseInt, Number applied to a string, String
    applied to an integer, and padStart. */
module JsText {
  import opened Wrappers

  // ---------------------------------------------------------------------
  // Whitespace and trimming
  // ---------------------------------------------------------------------

  /** WhiteSpace or LineTerminator in the sense of ECMA-262: the characters
      that trim() removes and that parseInt and Number skip. */
  predicate IsSpace(c: char) {
    c == '\t' || c == '\U{000B}' || c == '\U{000C}' || c == ' ' || c == '\U{00A0}' || c == '\U{FEFF}'
    || c == '\U{1680}' || ('\U{2000}' <= c <= '\U{200A}') || c == '\U{202F}' || c == '\U{205F}'
    || c == '\U{3000}' || c == '\n' || c == '\r' || c == '\U{2028}' || c == '\U{2029}'
  }

  /** s without its leading whitespace. */
  function TrimStart(s: string): (r: string)
    ensures |r| <= |s| && r == s[|s| - |r|..]
    ensures r == [] || !IsSpace(r[0])
    ensures forall i :: 0 <= i < |s| - |r| ==> IsSpace(s[i])
  {
    if s != [] && IsSpace(s[0]) then TrimStart(s[1..]) else s
  }

  /** s without its trailing whitespace. */
  function TrimEnd(s: string): (r: string)
    ensures |r| <= |s| && r == s[..|r|]
    ensures r == [] || !IsSpace(r[|r| - 1])
    ensures forall i :: |r| <= i < |s| ==> IsSpace(s[i])
  {
    if s != [] && IsSpace(s[|s| - 1]) then TrimEnd(s[..|s| - 1]) else s
  }

  /** String.prototype.trim: the longest middle part of s that neither
      starts nor ends with whitespace, everything cut off being whitespace. */
  function Trim(s: string): (r: string)
    ensures |r| <= |s|
    ensures r == [] || (!IsSpace(r[0]) && !IsSpace(r[|r| - 1]))
  {
    var t := TrimStart(s);
    var r := TrimEnd(t);
    assert r != [] ==> r[0] == t[0];
    r
  }

  /** Text that starts with no whitespace is left as it is. */
  lemma TrimStartUnchanged(s: string)
    requires s == [] || !IsSpace(s[0])
    ensures TrimStart(s) == s
  {
  }

  /** One whitespace character before text that starts with none is all
      TrimStart removes. */
  lemma TrimStartOfSpaced(c: char, t: string)
    requires IsSpace(c) && (t == [] || !IsSpace(t[0]))
    ensures TrimStart([c] + t) == t
  {
    assert ([c] + t)[1..] == t;
  }

  /** Trim keeps a middle slice of s: a prefix of what TrimStart leaves. */
  lemma TrimSlice(s: string)
    ensures |Trim(s)| <= |TrimStart(s)|
    ensures Trim(s) == TrimStart(s)[..|Trim(s)|]
    ensures TrimStart(s) == s[|s| - |TrimStart(s)|..]
  {
    assert Trim(s) == TrimEnd(TrimStart(s));
  }

  /** Everything Trim cuts off at the end is whitespace (what it cuts off
      at the start is, by TrimStart's contract). */
  lemma TrimCutsSpaces(s: string)
    ensures forall i :: |s| - |TrimStart(s)| + |Trim(s)| <= i < |s| ==> IsSpace(s[i])
  {
    var t := TrimStart(s);
    var r := TrimEnd(t);
    assert r == Trim(s);
    assert forall k :: |r| <= k < |t| ==> IsSpace(t[k]);
    ShiftedSpaces(s, t, |r|, |s| - |t|);
  }

  /** Whitespace at the end of a suffix is whitespace at the end of the
      whole string. */
  lemma ShiftedSpaces(s: string, t: string, n: nat, a: nat)
    requires a <= |s| && t == s[a..] && n <= |t|
    requires forall k :: n <= k < |t| ==> IsSpace(t[k])
    ensures forall i :: a + n <= i < |s| ==> IsSpace(s[i])
  {
    forall i | a + n <= i < |s| ensures IsSpace(s[i]) {
      assert s[i] == t[i - a];
    }
  }

  /** Trimming is idempotent. */
  lemma TrimIdempotent(s: string)
    ensures Trim(Trim(s)) == Trim(s)
  {
    var r := Trim(s);
    assert TrimStart(r) == r;
    assert TrimEnd(r) == r;
  }

  /** A string that has no whitespace at either end is its own trim. */
  lemma TrimOfTrimmed(s: string)
    requires s == [] || (!IsSpace(s[0]) && !IsSpace(s[|s| - 1]))
    ensures Trim(s) == s
  {
    assert TrimStart(s) == s;
    assert TrimEnd(s) == s;
  }

  // ---------------------------------------------------------------------
  // split and join
  // ---------------------------------------------------------------------

  /** sep occurs in s at position i. */
  predicate OccursAt(s: string, sep: string, i: int) {
    0 <= i && i + |sep| <= |s| && s[i..i + |sep|] == sep
  }

  /** The first position at or after `from` where sep occurs in s. */
  function IndexFrom(s: string, sep: string, from: nat): (r: Option<nat>)
    requires |sep| > 0
    ensures r.Some? ==> from <= r.value && OccursAt(s, sep, r.value)
    ensures r.Some? ==> forall i :: from <= i < r.value ==> !OccursAt(s, sep, i)
    ensures r.None? ==> forall i :: from <= i ==> !OccursAt(s, sep, i)
    decreases |s| - from
  {
    if from + |sep| > |s| then None
    else if s[from..from + |sep|] == sep then Some(from)
    else IndexFrom(s, sep, from + 1)
  }

  /** String.prototype.split with a non-empty string separator: the pieces
      between the occurrences of sep, found left to right without overlap. */
  function Split(s: string, sep: string): (r: seq<string>)
    requires |sep| > 0
    ensures |r| >= 1
    decreases |s|
  {
    match IndexFrom(s, sep, 0)
    case None => [s]
    case Some(i) => [s[..i]] + Split(s[i + |sep|..], sep)
  }

  /** Array.prototype.join: the parts with sep between consecutive ones. */
  function Join(parts: seq<string>, sep: string): string {
    if |parts| == 0 then ""
    else if |parts| == 1 then parts[0]
    else parts[0] + sep + Join(parts[1..], sep)
  }

  /** Joining the pieces of a split with the same separator gives back the
      original string. */
  lemma {:induction false} JoinSplit(s: string, sep: string)
    requires |sep| > 0
    ensures Join(Split(s, sep), sep) == s
    decreases |s|
  {
    match IndexFrom(s, sep, 0)
    case None =>
    case Some(i) =>
      var rest := s[i + |sep|..];
      var tail := Split(rest, sep);
      JoinSplit(rest, sep);
      assert Split(s, sep) == [s[..i]] + tail;
      assert Join([s[..i]] + tail, sep) == s[..i] + sep + Join(tail, sep);
      assert s == s[..i] + sep + rest;
  }

  /** No piece of a split on a single character contains that character. */
  lemma {:induction false} SplitPiecesAvoid(s: string, c: char)
    ensures forall p :: p in Split(s, [c]) ==> c !in p
    decreases |s|
  {
    match IndexFrom(s, [c], 0)
    case None =>
      forall j | 0 <= j < |s| ensures s[j] != c {
        assert !OccursAt(s, [c], j);
        assert s[j..j + 1] == [s[j]];
      }
    case Some(i) =>
      SplitPiecesAvoid(s[i + 1..], c);
      forall j | 0 <= j < i ensures s[j] != c {
        assert !OccursAt(s, [c], j);
        assert s[j..j + 1] == [s[j]];
      }
  }

  /** A single character that is not in s occurs nowhere in it. */
  lemma NoOccurrence(s: string, c: char)
    requires c !in s
    ensures forall i :: !OccursAt(s, [c], i)
  {
    forall i ensures !OccursAt(s, [c], i) {
      if 0 <= i && i + 1 <= |s| {
        assert s[i..i + 1] == [s[i]];
      }
    }
  }

  /** A string in which sep does not occur splits into itself alone. */
  lemma SplitWithout(s: string, sep: string)
    requires |sep| > 0
    requires forall i :: !OccursAt(s, sep, i)
    ensures Split(s, sep) == [s]
  {
    var r := IndexFrom(s, sep, 0);
    assert r.None?;
  }

  // ---------------------------------------------------------------------
  // Digits, String(n), parseInt
  // ---------------------------------------------------------------------

  predicate IsDecimalDigit(c: char) { '0' <= c <= '9' }

  predicate IsHexDigit(c: char) {
    IsDecimalDigit(c) || ('a' <= c <= 'f') || ('A' <= c <= 'F')
  }

  /** c is a digit of the given base (10 or 16). */
  predicate IsDigitOf(c: char, hex: bool) {
    if hex then IsHexDigit(c) else IsDecimalDigit(c)
  }

  /** The value of a decimal or hexadecimal digit. */
  function DigitValue(c: char): (v: nat)
    requires IsHexDigit(c)
    ensures v < 16
    ensures IsDecimalDigit(c) ==> v < 10
  {
    if IsDecimalDigit(c) then c as int - '0' as int
    else if 'a' <= c <= 'f' then c as int - 'a' as int + 10
    else c as int - 'A' as int + 10
  }

  /** The decimal digit character for d < 10. */
  function DigitChar(d: nat): (c: char)
    requires d < 10
    ensures IsDecimalDigit(c) && DigitValue(c) == d
  {
    ('0' as int + d) as char
  }

  /** The longest prefix of s made of digits of the base. */
  function LeadingDigits(s: string, hex: bool): (r: string)
    ensures |r| <= |s| && r == s[..|r|]
    ensures forall i :: 0 <= i < |r| ==> IsDigitOf(r[i], hex)
    ensures |r| < |s| ==> !IsDigitOf(s[|r|], hex)
  {
    if s != [] && IsDigitOf(s[0], hex) then [s[0]] + LeadingDigits(s[1..], hex) else []
  }

  /** The value of a digit string read most significant digit first. */
  function DigitsValue(ds: string, hex: bool): nat
    requires forall i :: 0 <= i < |ds| ==> IsDigitOf(ds[i], hex)
  {
    if ds == [] then 0
    else
      var last := ds[|ds| - 1];
      assert IsDigitOf(last, hex);
      DigitsValue(ds[..|ds| - 1], hex) * (if hex then 16 else 10) + DigitValue(last)
  }

  /** Leading zeros do not change the value of a decimal digit string. */
  lemma {:induction false} DigitsValueLeadingZeros(z: nat, ds: string)
    requires forall i :: 0 <= i < |ds| ==> IsDecimalDigit(ds[i])
    ensures forall i :: 0 <= i < |Zeros(z) + ds| ==> IsDecimalDigit((Zeros(z) + ds)[i])
    ensures DigitsValue(Zeros(z) + ds, false) == DigitsValue(ds, false)
    decreases z, |ds|
  {
    var zs := Zeros(z);
    if ds == [] {
      assert zs + ds == zs;
      AllZerosValue(z);
    } else {
      var init := ds[..|ds| - 1];
      DigitsValueLeadingZeros(z, init);
      assert (zs + ds)[..|zs + ds| - 1] == zs + init;
      assert (zs + ds)[|zs + ds| - 1] == ds[|ds| - 1];
    }
  }

  /** A string of zeros denotes zero. */
  lemma {:induction false} AllZerosValue(z: nat)
    ensures forall i :: 0 <= i < |Zeros(z)| ==> IsDecimalDigit(Zeros(z)[i])
    ensures DigitsValue(Zeros(z), false) == 0
  {
    if z > 0 {
      AllZerosValue(z - 1);
      assert Zeros(z)[..z - 1] == Zeros(z - 1);
    }
  }

  /** z copies of '0'. */
  function Zeros(z: nat): (r: string)
    ensures |r| == z && forall i :: 0 <= i < z ==> r[i] == '0'
  {
    if z == 0 then "" else Zeros(z - 1) + "0"
  }

  /** String(n) for a non-negative integer: its shortest decimal numeral. */
  function NatToString(n: nat): (r: string)
    ensures |r| >= 1
    ensures forall i :: 0 <= i < |r| ==> IsDecimalDigit(r[i])
    ensures |r| > 1 ==> r[0] != '0'
  {
    if n < 10 then [DigitChar(n)] else NatToString(n / 10) + [DigitChar(n % 10)]
  }

  /** Reading back the numeral of n gives n. */
  lemma {:induction false} NatToStringValue(n: nat)
    ensures DigitsValue(NatToString(n), false) == n
  {
    var r := NatToString(n);
    if n >= 10 {
      NatToStringValue(n / 10);
      assert r[..|r| - 1] == NatToString(n / 10);
    } else {
      assert r[..0] == [];
    }
  }

  /** String(n) for any integer. */
  function IntToString(n: int): (r: string)
    ensures |r| >= 1
    ensures n >= 0 ==> r == NatToString(n)
    ensures n < 0 ==> r == "-" + NatToString(-n)
  {
    if n < 0 then "-" + NatToString(-n) else NatToString(n)
  }

  /** The second argument of parseInt: absent, or the literal 10. */
  datatype Radix = Unspecified | Ten

  /** parseInt(s) or parseInt(s, 10); None stands for NaN. Leading
      whitespace is skipped, one sign is accepted, and the digits that
      follow are read by UnsignedParse. Results beyond 2^53 lose no
      precision here, unlike JavaScript's binary64 numbers. */
  function ParseInt(s: string, radix: Radix): (r: Option<int>) {
    var t := TrimStart(s);
    if |t| > 0 && t[0] == '-' then
      match UnsignedParse(t[1..], radix)
      case None => None
      case Some(v) => var w: int := v; Some(-w)
    else if |t| > 0 && t[0] == '+' then UnsignedParse(t[1..], radix)
    else UnsignedParse(t, radix)
  }

  /** The digits part of parseInt: with no radix a 0x or 0X prefix selects
      base 16, and the longest run of digits that follows is read; no digit
      at all gives NaN. */
  function UnsignedParse(u: string, radix: Radix): (r: Option<nat>)
    ensures r.None? <==> LeadingDigits(if HasHexPrefix(u, radix) then u[2..] else u, HasHexPrefix(u, radix)) == []
  {
    var hex := HasHexPrefix(u, radix);
    var ds := LeadingDigits(if hex then u[2..] else u, hex);
    if ds == [] then None else Some(DigitsValue(ds, hex))
  }

  /** parseInt without a radix reads "0x..." and "0X..." as hexadecimal. */
  predicate HasHexPrefix(u: string, radix: Radix) {
    radix == Unspecified && |u| >= 2 && u[0] == '0' && (u[1] == 'x' || u[1] == 'X')
  }

  /** A single digit is worth its own value. */
  lemma OneDigit(c: char, hex: bool)
    requires IsDigitOf(c, hex)
    ensures DigitsValue([c], hex) == DigitValue(c)
  {
    assert [c][..0] == [];
  }

  /** A run of digits that ends the string is read whole. */
  lemma LeadingDigitsAll(s: string, hex: bool)
    requires forall i :: 0 <= i < |s| ==> IsDigitOf(s[i], hex)
    ensures LeadingDigits(s, hex) == s
  {
  }

  /** The digits of a numeral written by String are read back whole. */
  lemma UnsignedParseNumeral(n: nat, radix: Radix)
    ensures UnsignedParse(NatToString(n), radix) == Some(n)
  {
    var ds := NatToString(n);
    assert !HasHexPrefix(ds, radix);
    forall i | 0 <= i < |ds| ensures IsDigitOf(ds[i], false) { }
    LeadingDigitsAll(ds, false);
    NatToStringValue(n);
  }

  /** parseInt reads back every integer that String wrote, with either
      radix argument. */
  lemma ParseIntOfIntToString(n: int, radix: Radix)
    ensures ParseInt(IntToString(n), radix) == Some(n)
  {
    if n < 0 {
      ParseIntOfNegative(n, radix);
    } else {
      ParseIntOfNonNegative(n, radix);
    }
  }

  lemma ParseIntOfNegative(n: int, radix: Radix)
    requires n < 0
    ensures ParseInt(IntToString(n), radix) == Some(n)
  {
    var s := IntToString(n);
    var digits := NatToString(-n);
    assert s[0] == '-' && s[1..] == digits;
    TrimStartUnchanged(s);
    UnsignedParseNumeral(-n, radix);
    assert UnsignedParse(s[1..], radix) == Some(-n);
  }

  lemma ParseIntOfNonNegative(n: int, radix: Radix)
    requires n >= 0
    ensures ParseInt(IntToString(n), radix) == Some(n)
  {
    var s := IntToString(n);
    assert IsDecimalDigit(s[0]);
    TrimStartUnchanged(s);
    UnsignedParseNumeral(n, radix);
  }

  /** parseInt(ds, 10) of a string of decimal digits is its value. */
  lemma ParseIntDecimalDigits(ds: string)
    requires |ds| > 0
    requires forall i :: 0 <= i < |ds| ==> IsDecimalDigit(ds[i])
    ensures ParseInt(ds, Ten) == Some(DigitsValue(ds, false))
  {
    var c := ds[0];
    assert IsDecimalDigit(c);
    assert c != '-' && c != '+' && !IsSpace(c);
    assert TrimStart(ds) == ds;
    assert UnsignedParse(ds, Ten) == Some(DigitsValue(ds, false)) by {
      LeadingDigitsAll(ds, false);
    }
  }

  /** parseInt(z, 10) of a zero-padded numeral reads the number back. */
  lemma ParseIntPadded(z: nat, n: nat)
    ensures ParseInt(Zeros(z) + NatToString(n), Ten) == Some(n)
  {
    var s := Zeros(z) + NatToString(n);
    DigitsValueLeadingZeros(z, NatToString(n));
    ParseIntDecimalDigits(s);
    NatToStringValue(n);
  }

  // ---------------------------------------------------------------------
  // padStart
  // ---------------------------------------------------------------------

  /** s.padStart(width, '0'): s with enough zeros in front to reach the
      width; a string already that long is returned unchanged, never cut. */
  function PadStartZeros(s: string, width: nat): (r: string)
    ensures |r| == if |s| >= width then |s| else width
    ensures r == Zeros(|r| - |s|) + s
  {
    if |s| >= width then Zeros(0) + s else Zeros(width - |s|) + s
  }

  // ---------------------------------------------------------------------
  // Number(string)
  // ---------------------------------------------------------------------

  /** A JavaScript number as far as the model needs it. */
  datatype JsNumber = NaN | Finite(value: real) | Infinity(positive: bool)

  /** 10 to the power e. */
  function Pow10(e: int): (r: real)
    ensures r > 0.0
    decreases if e < 0 then -e else e
  {
    if e == 0 then 1.0 else if e > 0 then 10.0 * Pow10(e - 1) else Pow10(e + 1) / 10.0
  }

  /** The digits of a 0x, 0o or 0b literal, all of base b. */
  predicate AllDigitsOfBase(s: string, b: nat) {
    forall i :: 0 <= i < |s| ==> IsHexDigit(s[i]) && DigitValue(s[i]) < b
  }

  /** The value of digits of base b, most significant first. */
  function BaseValue(s: string, b: nat): nat
    requires AllDigitsOfBase(s, b)
  {
    if s == [] then 0 else BaseValue(s[..|s| - 1], b) * b + DigitValue(s[|s| - 1])
  }

  /** Number(s) for a string s (StringToNumber in ECMA-262): whitespace
      around it is ignored, the empty string is 0, 0x/0o/0b literals are
      read in their base, a decimal literal may carry a sign, a fraction
      and an exponent, and anything else is NaN. The value is the exact
      rational number written; rounding to binary64 is not modelled. */
  function StringToNumber(s: string): JsNumber {
    var t := Trim(s);
    if t == [] then Finite(0.0)
    else if RadixBase(t) > 0 then RadixLiteral(t[2..], RadixBase(t))
    else SignedDecimal(t)
  }

  /** The base a 0x, 0o or 0b prefix selects (in either case), 0 if none. */
  function RadixBase(t: string): nat {
    if |t| >= 2 && t[0] == '0' then
      if t[1] == 'x' || t[1] == 'X' then 16
      else if t[1] == 'o' || t[1] == 'O' then 8
      else if t[1] == 'b' || t[1] == 'B' then 2
      else 0
    else 0
  }

  /** The digits after a radix prefix: at least one, all of the base. */
  function RadixLiteral(digits: string, b: nat): JsNumber {
    if |digits| > 0 && AllDigitsOfBase(digits, b) then Finite(BaseValue(digits, b) as real) else NaN
  }

  /** StrDecimalLiteral: an optional sign and an unsigned decimal literal. */
  function SignedDecimal(t: string): JsNumber
    requires |t| > 0
  {
    var negative := t[0] == '-';
    var body := if t[0] == '-' || t[0] == '+' then t[1..] else t;
    match UnsignedDecimal(body)
    case NaN => NaN
    case Infinity(_) => Infinity(!negative)
    case Finite(v) => Finite(if negative then -v else v)
  }

  /** StrUnsignedDecimalLiteral: Infinity, or digits with an optional
      fraction and an optional exponent, at least one digit in all. */
  function UnsignedDecimal(body: string): JsNumber {
    if body == "Infinity" then Infinity(true)
    else
      var whole := LeadingDigits(body, false);
      var rest := body[|whole|..];
      var frac := if rest != [] && rest[0] == '.' then LeadingDigits(rest[1..], false) else [];
      var afterFrac := if rest != [] && rest[0] == '.' then rest[1 + |frac|..] else rest;
      if |whole| + |frac| == 0 then NaN
      else
        var mantissa := DigitsValue(whole + frac, false) as real;
        match Exponent(afterFrac)
        case None => NaN
        case Some(e) => Finite(mantissa * Pow10(e - |frac|))
  }

  /** An ExponentPart (e or E, an optional sign, digits) or nothing at all. */
  function Exponent(s: string): Option<int> {
    if s == [] then Some(0)
    else if s[0] != 'e' && s[0] != 'E' then None
    else
      var u := s[1..];
      var negative := u != [] && u[0] == '-';
      var ds := if u != [] && (u[0] == '-' || u[0] == '+') then u[1..] else u;
      if ds != [] && LeadingDigits(ds, false) == ds then
        var v: int := DigitsValue(ds, false);
        Some(if negative then -v else v)
      else None
  }

  /** A plain run of decimal digits denotes its value. */
  lemma UnsignedDecimalOfDigits(ds: string)
    requires |ds| > 0
    requires forall i :: 0 <= i < |ds| ==> IsDecimalDigit(ds[i])
    ensures UnsignedDecimal(ds) == Finite(DigitsValue(ds, false) as real)
  {
    assert ds != "Infinity" by { assert IsDecimalDigit(ds[0]); }
    LeadingDigitsAll(ds, false);
    assert ds[|ds|..] == [];
    assert ds + [] == ds;
  }

  /** The numeral String writes is a decimal literal of the same value. */
  lemma SignedDecimalOfIntToString(n: int)
    ensures SignedDecimal(IntToString(n)) == Finite(n as real)
  {
    var m: nat := if n < 0 then -n else n;
    var ds := NatToString(m);
    assert UnsignedDecimal(ds) == Finite(m as real) by {
      NatToStringValue(m);
      UnsignedDecimalOfDigits(ds);
    }
    if n < 0 {
      var s := "-" + ds;
      assert s[0] == '-' && s[1..] == ds;
      assert SignedDecimal(s) == Finite(-(m as real));
    } else {
      assert IsDecimalDigit(ds[0]);
      assert SignedDecimal(ds) == Finite(m as real);
    }
  }

  /** A numeral written by String has no 0x, 0o or 0b prefix. */
  lemma IntToStringNoRadixPrefix(n: int)
    ensures RadixBase(IntToString(n)) == 0
  {
    var s := IntToString(n);
    if n < 0 {
      assert s[0] == '-';
    } else {
      var ds := NatToString(n);
      assert s == ds;
      assert |ds| > 1 ==> ds[0] != '0';
    }
  }

  /** A numeral written by String has no surrounding whitespace. */
  lemma IntToStringTrimmed(n: int)
    ensures Trim(IntToString(n)) == IntToString(n)
  {
    var s := IntToString(n);
    if n < 0 {
      assert s[0] == '-';
    } else {
      assert IsDecimalDigit(s[0]);
    }
    assert IsDecimalDigit(s[|s| - 1]);
    TrimOfTrimmed(s);
  }

  /** Number(String(n)) == n: a numeral written by String reads back. */
  lemma StringToNumberOfIntToString(n: int)
    ensures StringToNumber(IntToString(n)) == Finite(n as real)
  {
    IntToStringTrimmed(n);
    IntToStringNoRadixPrefix(n);
    SignedDecimalOfIntToString(n);
  }
}
