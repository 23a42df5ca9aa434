/**
 * The two numeric conversions the loader applies to CSV fields: Go's
 * strconv.Atoi (on a 64-bit platform) and strconv.ParseFloat, whose value
 * is taken whatever its error.
 *
 * Atoi is modelled through ParseInt/ParseUint in base 10: Atoi's fast path
 * for short strings returns the same value as that slow path on every
 * input, so only one definition is kept. ParseFloat is modelled on exact
 * reals for decimal notation.
 */
module Numbers {
  import opened Wrappers

  const MaxInt64: int := 0x7FFF_FFFF_FFFF_FFFF
  const MinInt64: int := -0x8000_0000_0000_0000
  const MaxUint64: int := 0xFFFF_FFFF_FFFF_FFFF
  /** ParseUint's cutoff for base 10: an accumulator at or above it overflows when multiplied by 10. */
  const Cutoff10: int := MaxUint64 / 10 + 1

  predicate IsDigit(c: char) { '0' <= c <= '9' }

  predicate IsDigits(s: string) { forall i :: 0 <= i < |s| ==> IsDigit(s[i]) }

  function DigitValue(c: char): nat
    requires IsDigit(c)
  {
    (c as int) - ('0' as int)
  }

  function Pow10(n: nat): (r: nat)
    ensures r >= 1
  {
    if n == 0 then 1 else 10 * Pow10(n - 1)
  }

  /** The value of a string of decimal digits, most significant first. */
  function DigitsValue(s: string): nat
    requires IsDigits(s)
  {
    if s == [] then 0 else DigitsValue(s[..|s| - 1]) * 10 + DigitValue(s[|s| - 1])
  }

  /** The int64 value nearest to n: what ParseInt returns on a range error. */
  function Clamp64(n: int): (r: int)
    ensures MinInt64 <= r <= MaxInt64
    ensures MinInt64 <= n <= MaxInt64 ==> r == n
    ensures n > MaxInt64 ==> r == MaxInt64
    ensures n < MinInt64 ==> r == MinInt64
  {
    if n > MaxInt64 then MaxInt64 else if n < MinInt64 then MinInt64 else n
  }

  // ---------------------------------------------------------------- Atoi

  datatype UintParse = UintOk(n: nat) | UintSyntax | UintRange

  /**
   * ParseUint's digit loop: each byte must be a decimal digit, and the loop
   * stops with a range error as soon as the accumulator would exceed
   * 2^64 - 1, without looking at the bytes that follow.
   */
  function ScanUint(s: string, n: nat): UintParse
    requires n <= MaxUint64
    decreases |s|
  {
    if s == [] then UintOk(n)
    else if !IsDigit(s[0]) then UintSyntax
    else if n >= Cutoff10 then UintRange
    else if n * 10 + DigitValue(s[0]) > MaxUint64 then UintRange
    else ScanUint(s[1..], n * 10 + DigitValue(s[0]))
  }

  /** strconv.ParseUint(s, 10, 64). */
  function ParseUint(s: string): UintParse
  {
    if s == [] then UintSyntax else ScanUint(s, 0)
  }

  /** True when ParseInt reads a leading minus sign. */
  predicate IsNegative(s: string) { |s| > 0 && s[0] == '-' }

  /** What ParseInt hands to ParseUint: the string without one leading sign. */
  function UnsignedPart(s: string): string
  {
    if |s| > 0 && (s[0] == '-' || s[0] == '+') then s[1..] else s
  }

  /**
   * strconv.Atoi(s) with its error ignored: 0 on a syntax error, the
   * nearest int64 on a range error, the value otherwise.
   */
  function Atoi(s: string): (r: int)
    ensures MinInt64 <= r <= MaxInt64
  {
    if s == [] then 0
    else
      match ParseUint(UnsignedPart(s))
      case UintSyntax => 0
      case UintRange => if IsNegative(s) then MinInt64 else MaxInt64
      case UintOk(u) => Clamp64(if IsNegative(s) then -(u as int) else u)
  }

  lemma {:induction false} DigitsValueCons(s: string)
    requires IsDigits(s) && |s| > 0
    ensures DigitsValue(s) == DigitValue(s[0]) * Pow10(|s| - 1) + DigitsValue(s[1..])
    decreases |s|
  {
    if |s| > 1 {
      var init := s[..|s| - 1];
      DigitsValueCons(init);
      var a, p := DigitValue(s[0]), Pow10(|s| - 2);
      var r, d := DigitsValue(init[1..]), DigitValue(s[|s| - 1]);
      assert init[0] == s[0];
      assert DigitsValue(init) == a * p + r;
      assert DigitsValue(s) == DigitsValue(init) * 10 + d;
      assert DigitsValue(s[1..]) == r * 10 + d by {
        assert s[1..][..|s| - 2] == init[1..];
        assert s[1..][|s| - 2] == s[|s| - 1];
      }
      assert Pow10(|s| - 1) == p * 10;
      Regroup(DigitsValue(s), DigitsValue(init), a, p, r, d, Pow10(|s| - 1), DigitsValue(s[1..]));
    } else {
      assert s[..0] == [];
    }
  }

  /** The arithmetic of moving the leading digit out of a value. */
  lemma Regroup(whole: nat, init: nat, a: nat, p: nat, r: nat, d: nat, p10: nat, tail: nat)
    requires whole == init * 10 + d && init == a * p + r && tail == r * 10 + d && p10 == p * 10
    ensures whole == a * p10 + tail
  {
  }

  /** Moving one leading digit d into the accumulator n leaves the value read unchanged. */
  lemma ShiftDigit(n: nat, d: nat, k: nat, rest: nat)
    ensures n * (10 * k) + (d * k + rest) == (n * 10 + d) * k + rest
    ensures k >= 1 ==> (n * 10 + d) * k >= n * 10 + d
  {
  }

  /** The digit loop reads a digit string exactly, or reports a range error exactly when it overflows. */
  lemma {:induction false} ScanUintDigits(s: string, n: nat)
    requires IsDigits(s) && n <= MaxUint64
    ensures ScanUint(s, n) ==
      if n * Pow10(|s|) + DigitsValue(s) <= MaxUint64 then UintOk(n * Pow10(|s|) + DigitsValue(s)) else UintRange
    decreases |s|
  {
    if s != [] {
      var d := DigitValue(s[0]);
      var k := Pow10(|s| - 1);
      var rest := DigitsValue(s[1..]);
      DigitsValueCons(s);
      assert DigitsValue(s) == d * k + rest;
      assert Pow10(|s|) == 10 * k;
      ShiftDigit(n, d, k, rest);
      var total := n * Pow10(|s|) + DigitsValue(s);
      assert total == (n * 10 + d) * k + rest;
      if n >= Cutoff10 {
        assert n * 10 + d > MaxUint64;
      } else if n * 10 + d <= MaxUint64 {
        ScanUintDigits(s[1..], n * 10 + d);
      }
    }
  }

  /** Atoi of an optionally signed digit string is its value, clamped to int64. */
  lemma AtoiOfDigits(s: string)
    requires IsDigits(UnsignedPart(s)) && |UnsignedPart(s)| > 0
    ensures Atoi(s) == Clamp64(if IsNegative(s) then -(DigitsValue(UnsignedPart(s)) as int) else DigitsValue(UnsignedPart(s)))
  {
    var u := UnsignedPart(s);
    ScanUintDigits(u, 0);
  }

  /** A non-digit that the digit loop reaches before any overflow is a syntax error. */
  lemma {:induction false} ScanUintRejects(s: string, n: nat, k: nat)
    requires n <= MaxUint64 && k < |s|
    requires IsDigits(s[..k]) && !IsDigit(s[k])
    requires n * Pow10(k) + DigitsValue(s[..k]) <= MaxUint64
    ensures ScanUint(s, n) == UintSyntax
    decreases k
  {
    if k > 0 {
      var d, p := DigitValue(s[0]), Pow10(k - 1);
      assert s[1..][..k - 1] == s[1..k] == s[..k][1..];
      assert s[..k][0] == s[0];
      DigitsValueCons(s[..k]);
      assert Pow10(k) == 10 * p;
      NoOverflowStep(n, d, p, DigitsValue(s[1..k]), Pow10(k), DigitsValue(s[..k]));
      ScanUintRejects(s[1..], n * 10 + d, k - 1);
    }
  }

  /** When the whole value fits, so does the accumulator after one more digit, and so does the rest. */
  lemma NoOverflowStep(n: nat, d: nat, p: nat, rest: nat, pk: nat, value: nat)
    requires p >= 1 && pk == 10 * p && value == d * p + rest && n * pk + value <= MaxUint64
    ensures n * 10 + d <= MaxUint64 && n < Cutoff10
    ensures (n * 10 + d) * p + rest <= MaxUint64
  {
    ShiftDigit(n, d, p, rest);
  }

  /**
   * The unsigned part of s is empty, or has a non-digit at position k with
   * no overflow before it: every string that is not an integer and has
   * fewer than 20 digits before its first non-digit ("NULL" among them).
   */
  predicate AtoiRejectsAt(s: string, k: nat)
  {
    var u := UnsignedPart(s);
    |u| == 0 || (k < |u| && IsDigits(u[..k]) && !IsDigit(u[k]) && DigitsValue(u[..k]) <= MaxUint64)
  }

  /** Atoi gives 0 for such a string. */
  lemma AtoiRejects(s: string, k: nat)
    requires AtoiRejectsAt(s, k)
    ensures Atoi(s) == 0
  {
    if |UnsignedPart(s)| > 0 {
      ScanUintRejects(UnsignedPart(s), 0, k);
    }
  }

  /** The decimal digits of n, most significant first, with no leading zeros: strconv.Itoa. */
  function NatToDigits(n: nat): (r: string)
    ensures |r| > 0 && IsDigits(r)
    ensures DigitsValue(r) == n
  {
    var last := ('0' as int + n % 10) as char;
    if n < 10 then
      assert [last][..0] == [];
      [last]
    else
      var init := NatToDigits(n / 10);
      assert (init + [last])[..|init|] == init;
      init + [last]
  }

  /** strconv.Itoa on int64 values. */
  function FormatInt(i: int): string
  {
    if i < 0 then "-" + NatToDigits(-i) else NatToDigits(i)
  }

  /** Atoi inverts decimal formatting on every int64. */
  lemma AtoiFormatInt(i: int)
    requires MinInt64 <= i <= MaxInt64
    ensures Atoi(FormatInt(i)) == i
  {
    var s := FormatInt(i);
    if i < 0 {
      assert UnsignedPart(s) == NatToDigits(-i);
    } else {
      assert UnsignedPart(s) == NatToDigits(i);
    }
    AtoiOfDigits(s);
  }

  // ---------------------------------------------------------- ParseFloat

  /** Index of the first character satisfying the mark, or |s| if none does. */
  function FindExponentMark(s: string): (k: nat)
    ensures k <= |s|
    ensures forall j :: 0 <= j < k ==> s[j] != 'e' && s[j] != 'E'
    ensures k < |s| ==> s[k] == 'e' || s[k] == 'E'
  {
    if s == [] then 0
    else if s[0] == 'e' || s[0] == 'E' then 0
    else 1 + FindExponentMark(s[1..])
  }

  function FindDot(s: string): (k: nat)
    ensures k <= |s|
    ensures forall j :: 0 <= j < k ==> s[j] != '.'
    ensures k < |s| ==> s[k] == '.'
  {
    if s == [] then 0
    else if s[0] == '.' then 0
    else 1 + FindDot(s[1..])
  }

  /** A decimal floating-point literal, split into its parts. */
  datatype Decimal = Decimal(negative: bool, whole: string, frac: string, exponent: int)

  /** x * 10^e, by repeated multiplication. */
  function MulPow10(x: real, e: nat): real
  {
    if e == 0 then x else MulPow10(x, e - 1) * 10.0
  }

  /** x / 10^e, by repeated division. */
  function DivPow10(x: real, e: nat): real
  {
    if e == 0 then x else DivPow10(x, e - 1) / 10.0
  }

  /** The exact value of a decimal literal. */
  function DecimalReal(d: Decimal): real
    requires IsDigits(d.whole) && IsDigits(d.frac)
  {
    var m := DigitsValue(d.whole) as real + DivPow10(DigitsValue(d.frac) as real, |d.frac|);
    var v := if d.exponent >= 0 then MulPow10(m, d.exponent) else DivPow10(m, -d.exponent);
    if d.negative then -v else v
  }

  /** An exponent: an optional sign followed by at least one digit. */
  function ExponentValue(e: string): Option<int>
  {
    var u := UnsignedPart(e);
    if |u| > 0 && IsDigits(u) then Some(if IsNegative(e) then -(DigitsValue(u) as int) else DigitsValue(u))
    else None
  }

  /**
   * ParseFloat's reading of decimal notation: an optional sign, digits with
   * at most one '.' and at least one digit, then optionally 'e' or 'E' with
   * an optionally signed digit string. None when s is not of that form.
   */
  function ParseDecimal(s: string): (r: Option<Decimal>)
    ensures r.Some? ==> IsDigits(r.value.whole) && IsDigits(r.value.frac)
  {
    ParseUnsigned(IsNegative(s), UnsignedPart(s))
  }

  /** The text after the sign, split at its first exponent mark. */
  function ParseUnsigned(negative: bool, body: string): (r: Option<Decimal>)
    ensures r.Some? ==> IsDigits(r.value.whole) && IsDigits(r.value.frac)
  {
    var k := FindExponentMark(body);
    var exponent := if k == |body| then Some(0) else ExponentValue(body[k + 1..]);
    ParseMantissa(negative, body[..k], exponent)
  }

  /** The mantissa m split at its first dot, given the sign and the exponent already read. */
  function ParseMantissa(negative: bool, m: string, exponent: Option<int>): (r: Option<Decimal>)
    ensures r.Some? ==> IsDigits(r.value.whole) && IsDigits(r.value.frac)
  {
    var dot := FindDot(m);
    var whole := m[..dot];
    var frac := if dot < |m| then m[dot + 1..] else [];
    if IsDigits(whole) && IsDigits(frac) && |whole| + |frac| > 0 && exponent.Some? then
      Some(Decimal(negative, whole, frac, exponent.value))
    else None
  }

  /** strconv.ParseFloat(s, 64) with its error ignored: 0 when s is not a number. */
  function ParseFloat(s: string): real
  {
    match ParseDecimal(s)
    case Some(d) => DecimalReal(d)
    case None => 0.0
  }

  /** The first dot of a string is the one after a dot-free prefix. */
  lemma FindDotAt(s: string, k: nat)
    requires k < |s| && s[k] == '.'
    requires forall j :: 0 <= j < k ==> s[j] != '.'
    ensures FindDot(s) == k
  {
  }

  /** A string without an exponent mark is all mantissa. */
  lemma FindExponentMarkNone(s: string)
    requires forall j :: 0 <= j < |s| ==> s[j] != 'e' && s[j] != 'E'
    ensures FindExponentMark(s) == |s|
  {
  }

  /** Where the parser splits "whole.frac": no sign, no exponent, the dot after whole. */
  lemma DecimalShape(whole: string, frac: string)
    requires IsDigits(whole) && IsDigits(frac) && |whole| > 0
    ensures var s := whole + "." + frac;
      UnsignedPart(s) == s && !IsNegative(s) && FindExponentMark(s) == |s| && FindDot(s) == |whole| &&
      s[..|s|] == s && s[..|whole|] == whole && s[|whole| + 1..] == frac
  {
    var s := whole + "." + frac;
    assert s[0] == whole[0];
    forall j | 0 <= j < |s|
      ensures s[j] != 'e' && s[j] != 'E'
    {
      if j < |whole| {
        assert s[j] == whole[j];
      } else if j > |whole| {
        assert s[j] == frac[j - |whole| - 1];
      }
    }
    FindExponentMarkNone(s);
    forall j | 0 <= j < |whole|
      ensures s[j] != '.'
    {
      assert s[j] == whole[j];
    }
    FindDotAt(s, |whole|);
    assert s[..|whole|] == whole;
    assert s[|whole| + 1..] == frac;
  }

  /** A plain decimal "whole.frac" parses to its exact value. */
  lemma ParseFloatDecimal(whole: string, frac: string)
    requires IsDigits(whole) && IsDigits(frac) && |whole| > 0
    ensures ParseFloat(whole + "." + frac) == DigitsValue(whole) as real + DivPow10(DigitsValue(frac) as real, |frac|)
  {
    ParseDecimalPlain(whole, frac);
  }

  lemma ParseDecimalPlain(whole: string, frac: string)
    requires IsDigits(whole) && IsDigits(frac) && |whole| > 0
    ensures ParseDecimal(whole + "." + frac) == Some(Decimal(false, whole, frac, 0))
  {
    DecimalShape(whole, frac);
  }

  /** The first exponent mark of a string is the one after a mark-free prefix. */
  lemma FindExponentMarkAt(s: string, k: nat)
    requires k < |s| && (s[k] == 'e' || s[k] == 'E')
    requires forall j :: 0 <= j < k ==> s[j] != 'e' && s[j] != 'E'
    ensures FindExponentMark(s) == k
  {
    if k > 0 {
      FindExponentMarkAt(s[1..], k - 1);
    }
  }

  /** A sign is one of "", "-" and "+". */
  predicate IsSign(sign: string)
  {
    sign == "" || sign == "-" || sign == "+"
  }

  /** One leading sign is split off a body that does not itself start with a sign. */
  lemma SignShape(sign: string, body: string)
    requires IsSign(sign) && |body| > 0 && body[0] != '-' && body[0] != '+'
    ensures UnsignedPart(sign + body) == body
    ensures IsNegative(sign + body) <==> sign == "-"
  {
    if sign == "" {
      assert sign + body == body;
    } else {
      assert (sign + body)[1..] == body;
    }
  }

  /** A signed digit string is read as an exponent with its sign. */
  lemma ExponentShape(sign: string, digits: string, e: int)
    requires IsSign(sign) && IsDigits(digits) && |digits| > 0
    requires e == if sign == "-" then -(DigitsValue(digits) as int) else DigitsValue(digits)
    ensures ExponentValue(sign + digits) == Some(e)
  {
    SignShape(sign, digits);
  }

  /** The mantissa "whole.frac" holds no exponent mark. */
  lemma MantissaNoMark(whole: string, frac: string)
    requires IsDigits(whole) && IsDigits(frac)
    ensures var m := whole + "." + frac; forall j :: 0 <= j < |m| ==> m[j] != 'e' && m[j] != 'E'
  {
    var m := whole + "." + frac;
    forall j | 0 <= j < |m|
      ensures m[j] != 'e' && m[j] != 'E'
    {
      if j < |whole| {
        assert m[j] == whole[j];
      } else if j > |whole| {
        assert m[j] == frac[j - |whole| - 1];
      }
    }
  }

  /** The first dot of the mantissa "whole.frac" follows whole. */
  lemma MantissaShape(whole: string, frac: string)
    requires IsDigits(whole)
    ensures var m := whole + "." + frac;
      FindDot(m) == |whole| && m[..|whole|] == whole && m[|whole| + 1..] == frac
  {
    var m := whole + "." + frac;
    forall j | 0 <= j < |whole|
      ensures m[j] != '.'
    {
      assert m[j] == whole[j];
    }
    FindDotAt(m, |whole|);
  }

  /** In "whole.frac" + mark + tail, the exponent mark is the one after the mantissa. */
  lemma BodyShape(whole: string, frac: string, mark: char, tail: string)
    requires IsDigits(whole) && IsDigits(frac) && (mark == 'e' || mark == 'E')
    ensures var m := whole + "." + frac;
      var body := m + [mark] + tail;
      FindExponentMark(body) == |m| && body[..|m|] == m && body[|m| + 1..] == tail
  {
    var m := whole + "." + frac;
    var body := m + [mark] + tail;
    MantissaNoMark(whole, frac);
    forall j | 0 <= j < |m|
      ensures body[j] != 'e' && body[j] != 'E'
    {
      assert body[j] == m[j];
    }
    FindExponentMarkAt(body, |m|);
    assert body[..|m|] == m;
    assert body[|m| + 1..] == tail;
  }

  /** A leading sign is read as the sign of the decimal. */
  lemma SignedRead(sign: string, body: string)
    requires IsSign(sign) && |body| > 0 && body[0] != '-' && body[0] != '+'
    ensures ParseDecimal(sign + body) == ParseUnsigned(sign == "-", body)
  {
    SignShape(sign, body);
  }

  /** A mantissa "whole.frac" is split into exactly whole and frac. */
  lemma MantissaRead(negative: bool, whole: string, frac: string, exponent: Option<int>)
    requires IsDigits(whole) && IsDigits(frac) && |whole| + |frac| > 0 && exponent.Some?
    ensures ParseMantissa(negative, whole + "." + frac, exponent) == Some(Decimal(negative, whole, frac, exponent.value))
  {
    MantissaShape(whole, frac);
  }

  /** "whole.frac" + mark + a signed exponent is split into exactly those parts. */
  lemma BodyRead(negative: bool, whole: string, frac: string, mark: char, esign: string, digits: string)
    requires IsDigits(whole) && IsDigits(frac) && |whole| + |frac| > 0 && (mark == 'e' || mark == 'E')
    requires IsSign(esign) && IsDigits(digits) && |digits| > 0
    ensures ParseUnsigned(negative, (whole + "." + frac) + [mark] + (esign + digits)) ==
      Some(Decimal(negative, whole, frac, if esign == "-" then -(DigitsValue(digits) as int) else DigitsValue(digits)))
  {
    var e := if esign == "-" then -(DigitsValue(digits) as int) else DigitsValue(digits);
    ExponentShape(esign, digits, e);
    BodyShape(whole, frac, mark, esign + digits);
    MantissaRead(negative, whole, frac, Some(e));
  }

  /**
   * ParseFloat reads the sign, the digits on both sides of the dot and a
   * signed exponent after 'e' or 'E': "-12.5e-3" is Decimal(true, "12", "5", -3).
   */
  lemma ParseDecimalSigned(sign: string, whole: string, frac: string, mark: char, esign: string, digits: string)
    requires IsSign(sign) && IsDigits(whole) && IsDigits(frac) && |whole| + |frac| > 0 && (mark == 'e' || mark == 'E')
    requires IsSign(esign) && IsDigits(digits) && |digits| > 0
    ensures ParseDecimal(sign + ((whole + "." + frac) + [mark] + (esign + digits))) ==
      Some(Decimal(sign == "-", whole, frac, if esign == "-" then -(DigitsValue(digits) as int) else DigitsValue(digits)))
  {
    var m := whole + "." + frac;
    var body := m + [mark] + (esign + digits);
    assert body[0] == m[0] == (if |whole| > 0 then whole[0] else '.');
    SignedRead(sign, body);
    BodyRead(sign == "-", whole, frac, mark, esign, digits);
  }

  /** Without an exponent the sign is still read: "-1.5" is Decimal(true, "1", "5", 0). */
  lemma ParseDecimalSignedPlain(sign: string, whole: string, frac: string)
    requires IsSign(sign) && IsDigits(whole) && IsDigits(frac) && |whole| + |frac| > 0
    ensures ParseDecimal(sign + (whole + "." + frac)) == Some(Decimal(sign == "-", whole, frac, 0))
  {
    var m := whole + "." + frac;
    assert m[0] == (if |whole| > 0 then whole[0] else '.');
    SignedRead(sign, m);
    MantissaNoMark(whole, frac);
    FindExponentMarkNone(m);
    assert m[..|m|] == m;
    MantissaRead(sign == "-", whole, frac, Some(0));
  }

  /** The literal "[-]whole.frac" + "e" + "[-]exponent" that denotes d. */
  function FormatDecimal(d: Decimal): string
  {
    var magnitude: nat := if d.exponent < 0 then -d.exponent else d.exponent;
    (if d.negative then "-" else "") +
      ((d.whole + "." + d.frac) + ['e'] + ((if d.exponent < 0 then "-" else "") + NatToDigits(magnitude)))
  }

  /** Parsing a formatted decimal gives it back: every sign, digit and exponent is read. */
  lemma ParseDecimalFormat(d: Decimal)
    requires IsDigits(d.whole) && IsDigits(d.frac) && |d.whole| + |d.frac| > 0
    ensures ParseDecimal(FormatDecimal(d)) == Some(d)
    ensures ParseFloat(FormatDecimal(d)) == DecimalReal(d)
  {
    var magnitude: nat := if d.exponent < 0 then -d.exponent else d.exponent;
    var sign := if d.negative then "-" else "";
    var esign := if d.exponent < 0 then "-" else "";
    var digits := NatToDigits(magnitude);
    assert (sign == "-") == d.negative;
    assert (if esign == "-" then -(DigitsValue(digits) as int) else DigitsValue(digits)) == d.exponent;
    var s := sign + ((d.whole + "." + d.frac) + ['e'] + (esign + digits));
    assert FormatDecimal(d) == s;
    ParseDecimalSigned(sign, d.whole, d.frac, 'e', esign, digits);
    assert ParseDecimal(s) == Some(d);
  }

  /** A digit string parses as a float to the same value as an integer. */
  lemma ParseFloatInteger(d: string)
    requires IsDigits(d) && |d| > 0
    ensures ParseFloat(d) == DigitsValue(d) as real
  {
    assert UnsignedPart(d) == d && !IsNegative(d);
    FindExponentMarkNone(d);
    assert d[..|d|] == d;
    assert FindDot(d) == |d|;
    assert ParseDecimal(d) == Some(Decimal(false, d, [], 0));
  }
}
