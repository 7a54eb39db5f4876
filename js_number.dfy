/** JavaScript Number values as the reservation code uses them: the conversion
    of a string to a number (ECMA-262, 2024 edition, section 7.1.4.1.1,
    StringToNumber), the conversion of a number to a string (section
    6.1.6.1.20, Number::toString),
    and the comparisons and arithmetic the code applies to them.

    A finite value is kept exactly, as (-1)^negative * mantissa * 10^exponent;
    several triples denote the same number, so numbers are compared by value
    (Less, Equal), never with ==. */
module JsNumber {
  import opened Wrappers

  datatype Num = NaN | Infinity(negative: bool) | Finite(negative: bool, mantissa: nat, exponent: int)

  /** The Number whose value is the integer i. */
  function FromInt(i: int): Num {
    Finite(i < 0, if i < 0 then -i else i, 0)
  }

  function Pow10(n: nat): (r: nat)
    ensures r >= 1
  {
    if n == 0 then 1 else 10 * Pow10(n - 1)
  }

  function Min(a: int, b: int): int {
    if a <= b then a else b
  }

  /** m * 10^k, written as k multiplications by ten. */
  function Shift(m: int, k: nat): int {
    if k == 0 then m else 10 * Shift(m, k - 1)
  }

  /** m / 10^k rounded down, written as k divisions by ten. */
  function Unshift(m: nat, k: nat): nat {
    if k == 0 then m else Unshift(m / 10, k - 1)
  }

  /** The signed integer n * 10^(-base), for a base at or below n's exponent. */
  function Scaled(n: Num, base: int): int
    requires n.Finite? && base <= n.exponent
  {
    Shift(if n.negative then -(n.mantissa as int) else n.mantissa, n.exponent - base)
  }

  // ---------------------------------------------------------------------------
  // Decimal digits and the decimal form of natural numbers

  predicate IsDigit(c: char) {
    '0' <= c <= '9'
  }

  function DigitValue(c: char): nat
    requires IsDigit(c)
  {
    c as int - '0' as int
  }

  function DigitChar(d: nat): (c: char)
    requires d < 10
    ensures IsDigit(c) && DigitValue(c) == d
  {
    ('0' as int + d) as char
  }

  predicate AllDigits(s: string) {
    forall i | 0 <= i < |s| :: IsDigit(s[i])
  }

  /** The value of a string of decimal digits, most significant first. */
  function DigitsValue(s: string): nat
    requires AllDigits(s)
    decreases |s|
  {
    if s == [] then 0 else 10 * DigitsValue(s[..|s| - 1]) + DigitValue(s[|s| - 1])
  }

  /** The shortest decimal form of n: no leading zero unless n is 0. */
  function NatToString(n: nat): (s: string)
    ensures |s| >= 1 && AllDigits(s)
    ensures n >= 10 ==> s[0] != '0'
    decreases n
  {
    if n < 10 then [DigitChar(n)] else NatToString(n / 10) + [DigitChar(n % 10)]
  }

  function IntToString(i: int): string {
    if i < 0 then "-" + NatToString(-i) else NatToString(i)
  }

  function Zeros(n: nat): (s: string)
    ensures |s| == n && AllDigits(s)
  {
    if n == 0 then [] else "0" + Zeros(n - 1)
  }

  /** Reading back the decimal form of n gives n. */
  lemma {:induction false} NatToStringValue(n: nat)
    ensures DigitsValue(NatToString(n)) == n
    decreases n
  {
    var s := NatToString(n);
    if n >= 10 {
      NatToStringValue(n / 10);
      assert s[..|s| - 1] == NatToString(n / 10);
    }
  }

  /** The decimal form of n has at most k digits when n < 10^k. */
  lemma {:induction false} NatToStringLength(n: nat, k: nat)
    requires k >= 1 && n < Pow10(k)
    ensures |NatToString(n)| <= k
    decreases n
  {
    if n >= 10 {
      assert k != 1 by { assert Pow10(1) == 10; }
      NatToStringLength(n / 10, k - 1);
    }
  }

  // ---------------------------------------------------------------------------
  // StringToNumber (ECMA-262 section 7.1.4.1.1)

  /** WhiteSpace and LineTerminator code points (ECMA-262 sections 12.2, 12.3). */
  predicate IsWhiteSpace(c: char) {
    || c == '\t' || c == '\n' || c == '\U{000B}' || c == '\U{000C}' || c == '\r'
    || c == ' ' || c == '\U{00A0}' || c == '\U{1680}' || ('\U{2000}' <= c <= '\U{200A}')
    || c == '\U{2028}' || c == '\U{2029}' || c == '\U{202F}' || c == '\U{205F}'
    || c == '\U{3000}' || c == '\U{FEFF}'
  }

  function TrimStart(s: string): (r: string)
    ensures |r| <= |s|
    decreases |s|
  {
    if s != [] && IsWhiteSpace(s[0]) then TrimStart(s[1..]) else s
  }

  function TrimEnd(s: string): (r: string)
    ensures |r| <= |s|
    decreases |s|
  {
    if s != [] && IsWhiteSpace(s[|s| - 1]) then TrimEnd(s[..|s| - 1]) else s
  }

  function Trim(s: string): string {
    TrimEnd(TrimStart(s))
  }

  /** The longest prefix of s made of decimal digits. */
  function DigitPrefix(s: string): (p: string)
    ensures |p| <= |s| && AllDigits(p)
    decreases |s|
  {
    if s != [] && IsDigit(s[0]) then [s[0]] + DigitPrefix(s[1..]) else []
  }

  function HexDigitValue(c: char): Option<nat> {
    if IsDigit(c) then Some(DigitValue(c))
    else if 'a' <= c <= 'f' then Some(c as int - 'a' as int + 10)
    else if 'A' <= c <= 'F' then Some(c as int - 'A' as int + 10)
    else None
  }

  /** The value of one digit in the given radix (2, 8 or 16), if it is one. */
  function RadixDigitValue(c: char, radix: nat): Option<nat> {
    match HexDigitValue(c)
    case Some(d) => if d < radix then Some(d) else None
    case None => None
  }

  predicate AllRadixDigits(s: string, radix: nat) {
    forall i | 0 <= i < |s| :: RadixDigitValue(s[i], radix).Some?
  }

  /** The value of a string of digits in radix 2, 8 or 16, most significant first. */
  function RadixValue(s: string, radix: nat): nat
    requires radix == 2 || radix == 8 || radix == 16
    requires AllRadixDigits(s, radix)
    decreases |s|
  {
    if s == [] then 0
    else
      var init := s[..|s| - 1];
      assert forall i | 0 <= i < |init| :: init[i] == s[i];
      var high := RadixValue(init, radix);
      (if radix == 2 then 2 * high else if radix == 8 then 8 * high else 16 * high)
      + RadixDigitValue(s[|s| - 1], radix).value
  }

  /** The radix named by the letter after a leading 0 (0x, 0o, 0b). */
  function RadixOf(c: char): Option<nat> {
    if c == 'x' || c == 'X' then Some(16)
    else if c == 'o' || c == 'O' then Some(8)
    else if c == 'b' || c == 'B' then Some(2)
    else None
  }

  /** The exponent part of a decimal literal: empty, or e/E, an optional sign, digits. */
  function ParseExponent(r: string): Option<int> {
    if r == [] then Some(0)
    else if r[0] == 'e' || r[0] == 'E' then
      var x := r[1..];
      var negative := x != [] && x[0] == '-';
      var ds := if x != [] && (x[0] == '+' || x[0] == '-') then x[1..] else x;
      if ds != [] && AllDigits(ds) then
        var v: int := if negative then -(DigitsValue(ds) as int) else DigitsValue(ds);
        Some(v)
      else None
    else None
  }

  /** StrUnsignedDecimalLiteral without Infinity: digits, an optional fraction,
      an optional exponent, at least one digit in all; the result is
      (mantissa, exponent). */
  function ParseUnsignedDecimal(u: string): Option<(nat, int)> {
    var ip := DigitPrefix(u);
    var r1 := u[|ip|..];
    var hasDot := r1 != [] && r1[0] == '.';
    var fp := if hasDot then DigitPrefix(r1[1..]) else [];
    var r2 := if hasDot then r1[1 + |fp|..] else r1;
    if |ip| + |fp| == 0 then None
    else
      assert AllDigits(ip + fp);
      match ParseExponent(r2)
      case None => None
      case Some(e) => Some((DigitsValue(ip + fp), e - |fp|))
  }

  /** A literal with a radix prefix: 0x, 0o or 0b followed by digits of that radix. */
  predicate IsRadixLiteral(t: string) {
    |t| > 2 && t[0] == '0' && RadixOf(t[1]).Some? && AllRadixDigits(t[2..], RadixOf(t[1]).value)
  }

  /** StrDecimalLiteral: an optional sign, then Infinity or an unsigned decimal. */
  function SignedDecimal(t: string): Num
    requires t != []
  {
    var negative := t[0] == '-';
    var u := if t[0] == '+' || t[0] == '-' then t[1..] else t;
    if u == "Infinity" then Infinity(negative)
    else match ParseUnsignedDecimal(u)
      case Some((m, e)) => Finite(negative, m, e)
      case None => NaN
  }

  /** StringToNumber on an already trimmed string. */
  function NumericLiteral(t: string): Num {
    if t == [] then Finite(false, 0, 0)
    else if IsRadixLiteral(t) then Finite(false, RadixValue(t[2..], RadixOf(t[1]).value), 0)
    else SignedDecimal(t)
  }

  /** Number(s) for a string s. */
  function ToNumber(s: string): Num {
    NumericLiteral(Trim(s))
  }

  /** The empty string converts to 0 (section 7.1.4.1.1: an empty
      StringNumericLiteral has value 0). */
  lemma EmptyToNumber()
    ensures ToNumber("") == FromInt(0)
  {
    assert TrimStart("") == "";
    assert Trim("") == "";
  }

  /** A string that starts with a character that cannot begin a numeric
      literal (not a digit, sign, point, white space or the I of Infinity)
      converts to NaN. */
  lemma NonNumericStart(s: string)
    requires s != [] && !IsWhiteSpace(s[0]) && !IsWhiteSpace(s[|s| - 1])
    requires !IsDigit(s[0]) && s[0] != '+' && s[0] != '-' && s[0] != '.' && s[0] != 'I'
    ensures ToNumber(s) == NaN
  {
    assert TrimStart(s) == s;
    assert Trim(s) == s;
    assert DigitPrefix(s) == [];
    assert ParseUnsignedDecimal(s) == None;
  }

  lemma TrimDigits(s: string)
    requires s != [] && AllDigits(s)
    ensures Trim(s) == s
  {
    assert !IsWhiteSpace(s[0]);
    assert TrimStart(s) == s;
    assert !IsWhiteSpace(s[|s| - 1]);
  }

  lemma ParseDigits(s: string)
    requires s != [] && AllDigits(s)
    ensures ParseUnsignedDecimal(s) == Some((DigitsValue(s), 0))
  {
    DigitPrefixOfDigits(s);
    assert s[|s|..] == [];
    assert s + [] == s;
  }

  /** A non-empty string of decimal digits converts to its decimal value. */
  lemma DigitsToNumber(s: string)
    requires s != [] && AllDigits(s)
    ensures ToNumber(s) == Finite(false, DigitsValue(s), 0)
  {
    TrimDigits(s);
    if |s| > 2 { assert RadixOf(s[1]).None?; }
    assert !IsRadixLiteral(s);
    assert s != "Infinity" by { assert !IsDigit('I'); }
    ParseDigits(s);
    assert SignedDecimal(s) == Finite(false, DigitsValue(s), 0);
  }

  lemma {:induction false} DigitPrefixOfDigits(s: string)
    requires AllDigits(s)
    ensures DigitPrefix(s) == s
    decreases |s|
  {
    if s != [] {
      DigitPrefixOfDigits(s[1..]);
    }
  }

  /** The digit prefix is a prefix of the string. */
  lemma {:induction false} DigitPrefixIsPrefix(s: string)
    ensures DigitPrefix(s) == s[..|DigitPrefix(s)|]
    decreases |s|
  {
    if s != [] && IsDigit(s[0]) {
      DigitPrefixIsPrefix(s[1..]);
      assert s == [s[0]] + s[1..];
    }
  }

  /** Characters that can occur in a string that ParseUnsignedDecimal accepts. */
  predicate IsDecimalLiteralChar(c: char) {
    IsDigit(c) || c == '.' || c == 'e' || c == 'E' || c == '+' || c == '-'
  }

  lemma ParseExponentChars(r: string)
    requires ParseExponent(r).Some?
    ensures forall i | 0 <= i < |r| :: IsDecimalLiteralChar(r[i])
  {
    if r != [] {
      var x := r[1..];
      var ds := if x != [] && (x[0] == '+' || x[0] == '-') then x[1..] else x;
      forall i | 0 <= i < |r| ensures IsDecimalLiteralChar(r[i]) {
        if i >= 1 && x != [] && (x[0] == '+' || x[0] == '-') && i >= 2 {
          assert r[i] == ds[i - 2];
        } else if i >= 1 && !(x != [] && (x[0] == '+' || x[0] == '-')) {
          assert r[i] == ds[i - 1];
        }
      }
    }
  }

  lemma ParseUnsignedDecimalChars(u: string)
    requires ParseUnsignedDecimal(u).Some?
    ensures forall i | 0 <= i < |u| :: IsDecimalLiteralChar(u[i])
  {
    var ip := DigitPrefix(u);
    var r1 := u[|ip|..];
    var hasDot := r1 != [] && r1[0] == '.';
    var fp := if hasDot then DigitPrefix(r1[1..]) else [];
    var r2 := if hasDot then r1[1 + |fp|..] else r1;
    DigitPrefixIsPrefix(u);
    if hasDot {
      DigitPrefixIsPrefix(r1[1..]);
    }
    ParseExponentChars(r2);
    forall i | 0 <= i < |u| ensures IsDecimalLiteralChar(u[i]) {
      if i < |ip| {
        assert u[i] == ip[i];
      } else if hasDot && i == |ip| {
      } else if hasDot && i < |ip| + 1 + |fp| {
        assert u[i] == fp[i - |ip| - 1];
      } else if hasDot {
        assert u[i] == r2[i - |ip| - 1 - |fp|];
      } else {
        assert u[i] == r2[i - |ip|];
      }
    }
  }

  lemma TrimKeeps(s: string, i: int)
    requires 0 <= i < |s| && !IsWhiteSpace(s[i])
    ensures s[i] in Trim(s)
  {
    TrimStartKeeps(s, i);
    var i' :| 0 <= i' < |TrimStart(s)| && TrimStart(s)[i'] == s[i];
    TrimEndKeeps(TrimStart(s), i');
  }

  lemma {:induction false} TrimStartKeeps(s: string, i: int)
    requires 0 <= i < |s| && !IsWhiteSpace(s[i])
    ensures exists j :: 0 <= j < |TrimStart(s)| && TrimStart(s)[j] == s[i]
    decreases |s|
  {
    if IsWhiteSpace(s[0]) {
      TrimStartKeeps(s[1..], i - 1);
      var j :| 0 <= j < |TrimStart(s[1..])| && TrimStart(s[1..])[j] == s[1..][i - 1];
      assert TrimStart(s)[j] == s[i];
    } else {
      assert TrimStart(s)[i] == s[i];
    }
  }

  lemma {:induction false} TrimEndKeeps(s: string, i: int)
    requires 0 <= i < |s| && !IsWhiteSpace(s[i])
    ensures s[i] in TrimEnd(s)
    decreases |s|
  {
    if IsWhiteSpace(s[|s| - 1]) {
      TrimEndKeeps(s[..|s| - 1], i);
    }
  }

  /** No string holding a colon is a numeric literal: Number gives NaN. */
  lemma ColonToNumber(s: string)
    requires ':' in s
    ensures ToNumber(s) == NaN
  {
    var i :| 0 <= i < |s| && s[i] == ':';
    TrimKeeps(s, i);
    ColonLiteral(Trim(s));
  }

  lemma ColonLiteral(t: string)
    requires ':' in t
    ensures NumericLiteral(t) == NaN
  {
    var j :| 0 <= j < |t| && t[j] == ':';
    if IsRadixLiteral(t) {
      assert false;
    }
    ColonSignedDecimal(t, j);
  }

  lemma ColonSignedDecimal(t: string, j: int)
    requires 0 <= j < |t| && t[j] == ':'
    ensures SignedDecimal(t) == NaN
  {
    var u := if t[0] == '+' || t[0] == '-' then t[1..] else t;
    var k := if t[0] == '+' || t[0] == '-' then j - 1 else j;
    assert 0 <= k < |u| && u[k] == ':';
    assert u != "Infinity" by { assert ':' !in "Infinity"; }
    if ParseUnsignedDecimal(u).Some? {
      ParseUnsignedDecimalChars(u);
    }
  }

  // ---------------------------------------------------------------------------
  // Number::toString (ECMA-262 section 6.1.6.1.20)

  /** The decimal form of m * 10^e for m > 0, in the layout Number::toString
      chooses from the digit count k and the decimal point position n. */
  function PositiveToString(m: nat, e: int): string
    requires m > 0
    decreases m
  {
    if m % 10 == 0 then PositiveToString(m / 10, e + 1)
    else
      var digits := NatToString(m);
      var k := |digits|;
      var n := k + e;
      if k <= n <= 21 then digits + Zeros(n - k)
      else if 0 < n <= 21 then digits[..n] + "." + digits[n..]
      else if -6 < n <= 0 then "0." + Zeros(-n) + digits
      else
        var x := n - 1;
        var expPart := (if x >= 0 then "+" else "-") + NatToString(if x >= 0 then x else -x);
        if k == 1 then digits + "e" + expPart
        else digits[..1] + "." + digits[1..] + "e" + expPart
  }

  function NumberToString(n: Num): string {
    match n
    case NaN => "NaN"
    case Infinity(negative) => if negative then "-Infinity" else "Infinity"
    case Finite(negative, m, e) =>
      if m == 0 then "0" else (if negative then "-" else "") + PositiveToString(m, e)
  }

  lemma {:induction false} PositiveToStringInteger(m: nat, e: nat)
    requires m > 0 && |NatToString(m)| + e <= 21
    ensures PositiveToString(m, e) == NatToString(m) + Zeros(e)
    decreases m
  {
    if m % 10 != 0 {
      PlainInteger(m, e);
    } else {
      TrailingZero(m);
      PositiveToStringInteger(m / 10, e + 1);
      assert Zeros(e + 1) == "0" + Zeros(e);
      assert NatToString(m / 10) + Zeros(e + 1) == NatToString(m / 10) + "0" + Zeros(e);
    }
  }

  /** Without a trailing zero, an integer of at most 21 digits is printed plain. */
  lemma PlainInteger(m: nat, e: nat)
    requires m > 0 && m % 10 != 0 && |NatToString(m)| + e <= 21
    ensures PositiveToString(m, e) == NatToString(m) + Zeros(e)
  {
    var k := |NatToString(m)|;
    assert k <= k + e <= 21;
  }

  /** A multiple of ten is printed as its tenth followed by 0. */
  lemma TrailingZero(m: nat)
    requires m > 0 && m % 10 == 0
    ensures NatToString(m) == NatToString(m / 10) + "0"
    ensures PositiveToString(m, 0) == PositiveToString(m / 10, 1)
  {
    assert DigitChar(0) == '0';
  }

  /** An integer below 10^21 in magnitude prints as its plain decimal form. */
  lemma IntegerToString(i: int)
    requires -(Pow10(21) as int) < i < Pow10(21)
    ensures NumberToString(FromInt(i)) == IntToString(i)
  {
    var m := if i < 0 then -i else i;
    if m > 0 {
      assert PositiveToString(m, 0) == NatToString(m) by {
        NatToStringLength(m, 21);
        PositiveToStringInteger(m, 0);
        assert NatToString(m) + Zeros(0) == NatToString(m);
      }
      if i < 0 {
        assert NumberToString(FromInt(i)) == "-" + PositiveToString(m, 0);
      } else {
        assert NumberToString(FromInt(i)) == "" + PositiveToString(m, 0);
        assert "" + NatToString(m) == NatToString(m);
      }
    } else {
      assert NatToString(0) == "0";
    }
  }

  // ---------------------------------------------------------------------------
  // Comparison and arithmetic (ECMA-262 section 6.1.6.1)

  /** Number::lessThan, with an undefined result (a NaN operand) read as false. */
  predicate Less(a: Num, b: Num) {
    match (a, b)
    case (NaN, _) => false
    case (_, NaN) => false
    case (Infinity(na), Infinity(nb)) => na && !nb
    case (Infinity(na), _) => na
    case (_, Infinity(nb)) => !nb
    case (Finite(_, _, ea), Finite(_, _, eb)) =>
      var base := Min(ea, eb);
      Scaled(a, base) < Scaled(b, base)
  }

  /** a <= b as JavaScript evaluates it: false when either side is NaN. */
  predicate LessEq(a: Num, b: Num) {
    !a.NaN? && !b.NaN? && !Less(b, a)
  }

  /** Number::equal: NaN equals nothing, +0 equals -0. */
  predicate Equal(a: Num, b: Num) {
    match (a, b)
    case (Infinity(na), Infinity(nb)) => na == nb
    case (Finite(_, _, ea), Finite(_, _, eb)) =>
      var base := Min(ea, eb);
      Scaled(a, base) == Scaled(b, base)
    case _ => false
  }

  /** ToBoolean of a Number: false exactly for NaN and zero. */
  predicate NumberTruthy(n: Num) {
    match n
    case NaN => false
    case Infinity(_) => true
    case Finite(_, m, _) => m != 0
  }

  function Negate(n: Num): Num {
    match n
    case NaN => NaN
    case Infinity(negative) => Infinity(!negative)
    case Finite(negative, m, e) => Finite(!negative, m, e)
  }

  function Add(a: Num, b: Num): Num {
    match (a, b)
    case (NaN, _) => NaN
    case (_, NaN) => NaN
    case (Infinity(na), Infinity(nb)) => if na == nb then a else NaN
    case (Infinity(_), _) => a
    case (_, Infinity(_)) => b
    case (Finite(_, _, ea), Finite(_, _, eb)) =>
      var base := Min(ea, eb);
      var s := Scaled(a, base) + Scaled(b, base);
      Finite(s < 0, if s < 0 then -s else s, base)
  }

  function Subtract(a: Num, b: Num): Num {
    Add(a, Negate(b))
  }

  /** ToIntegerOrInfinity of a finite Number: truncation toward zero. */
  function Truncate(n: Num): int
    requires n.Finite?
  {
    var magnitude := if n.exponent >= 0 then Shift(n.mantissa, n.exponent) else Unshift(n.mantissa, -n.exponent);
    if n.negative then -magnitude else magnitude
  }

  lemma TruncateFromInt(i: int)
    ensures Truncate(FromInt(i)) == i
  {
  }

  /** A string of k digits denotes a number below 10^k. */
  lemma {:induction false} DigitsValueBound(s: string)
    requires AllDigits(s)
    ensures DigitsValue(s) < Pow10(|s|)
    decreases |s|
  {
    if s != [] {
      DigitsValueBound(s[..|s| - 1]);
    }
  }

  /** Powers of ten grow with the exponent. */
  lemma {:induction false} Pow10Monotone(a: nat, b: nat)
    ensures a <= b ==> Pow10(a) <= Pow10(b)
    decreases b
  {
    if a < b {
      Pow10Monotone(a, b - 1);
    }
  }

  /** Appending digits b to digits a shifts a's value left by |b| places. */
  lemma {:induction false} DigitsValueConcat(a: string, b: string)
    requires AllDigits(a) && AllDigits(b)
    ensures AllDigits(a + b) && DigitsValue(a + b) == DigitsValue(a) * Pow10(|b|) + DigitsValue(b)
    decreases |b|
  {
    var t := a + b;
    assert AllDigits(t) by {
      forall i | 0 <= i < |t|
        ensures IsDigit(t[i])
      {
        if i < |a| {
          assert t[i] == a[i];
        } else {
          assert t[i] == b[i - |a|];
        }
      }
    }
    if b == [] {
      assert t == a;
    } else {
      var b' := b[..|b| - 1];
      var d := DigitValue(b[|b| - 1]);
      assert DigitsValue(t) == 10 * DigitsValue(a + b') + d by {
        assert t[..|t| - 1] == a + b';
        assert t[|t| - 1] == b[|b| - 1];
      }
      DigitsValueConcat(a, b');
      ShiftStep(DigitsValue(a), Pow10(|b'|), DigitsValue(b'), d);
    }
  }

  lemma ShiftStep(x: int, p: int, y: int, d: int)
    ensures 10 * (x * p + y) + d == x * (10 * p) + (10 * y + d)
  {
  }

  /** The value of a two- and of a four-digit string, digit by digit. */
  lemma DigitsValueSmall(t: string)
    requires AllDigits(t) && (|t| == 2 || |t| == 4)
    ensures |t| == 2 ==> DigitsValue(t) == 10 * DigitValue(t[0]) + DigitValue(t[1])
    ensures |t| == 4 ==> DigitsValue(t) == 1000 * DigitValue(t[0]) + 100 * DigitValue(t[1])
                                           + 10 * DigitValue(t[2]) + DigitValue(t[3])
  {
    var t1, t2 := t[..1], t[..2];
    assert DigitsValue(t1) == DigitValue(t[0]) by {
      assert t1[..0] == [] && t1[0] == t[0];
    }
    assert DigitsValue(t2) == 10 * DigitValue(t[0]) + DigitValue(t[1]) by {
      assert t2[..1] == t1 && t2[1] == t[1];
    }
    if |t| == 4 {
      var t3 := t[..3];
      assert DigitsValue(t3) == 10 * DigitsValue(t2) + DigitValue(t[2]) by {
        assert t3[..2] == t2 && t3[2] == t[2];
      }
      assert t[..3] == t3;
    } else {
      assert t == t2;
    }
  }

  lemma FromIntAdd(i: int, j: int)
    ensures Add(FromInt(i), FromInt(j)) == FromInt(i + j)
  {
  }

  /** The value of a finite number that compares equal to an integer i is i. */
  lemma FromIntCompare(i: int, j: int)
    ensures Less(FromInt(i), FromInt(j)) <==> i < j
    ensures Equal(FromInt(i), FromInt(j)) <==> i == j
    ensures Subtract(FromInt(i), FromInt(j)) == FromInt(i - j)
    ensures Truncate(FromInt(i)) == i
  {
  }
}
