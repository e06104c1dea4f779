/**
 * The `Float` fields of a control (size, offsets, alpha) as exact decimals,
 * with the plain-notation rendering of Kotlin's `Float.toString()` and the
 * reading of a `[\d.]+` token by `String.toFloat()`.
 */
module Decimals {
  import opened Wrappers
  import opened Text

  /** The number `mantissa / 10^scale`. */
  datatype Decimal = Decimal(mantissa: int, scale: nat)

  /** The shortest form: no trailing zero in the fraction. `Float.toString` never prints one beyond the first. */
  predicate Canonical(d: Decimal) {
    d.scale == 0 || d.mantissa % 10 != 0
  }

  function Value(d: Decimal): real {
    d.mantissa as real / Pow10(d.scale) as real
  }

  function FromInt(n: int): (d: Decimal)
    ensures Canonical(d) && Value(d) == n as real
  {
    Decimal(n, 0)
  }

  lemma {:induction false} Pow10Add(m: nat, n: nat)
    ensures Pow10(m + n) == Pow10(m) * Pow10(n)
  {
    if m > 0 {
      Pow10Add(m - 1, n);
      assert Pow10(m + n) == 10 * Pow10(m - 1 + n);
    }
  }

  lemma DivCancel(x: real, p: real, q: real)
    requires p > 0.0 && q > 0.0
    ensures (x * q) / (p * q) == x / p
  {
    var y := x / p;
    assert y * p == x;
    assert x * q == y * (p * q);
  }

  lemma MulAsReal(a: int, b: int)
    ensures (a * b) as real == a as real * b as real
  {
  }

  lemma ScaleUpValue(m: int, k: nat, s: nat)
    ensures Value(Decimal(m * Pow10(k), s + k)) == Value(Decimal(m, s))
  {
    var ps, pk := Pow10(s), Pow10(k);
    Pow10Add(s, k);
    MulAsReal(ps, pk);
    MulAsReal(m, pk);
    ScaledQuotient(m as real, ps as real, pk as real, (m * pk) as real, Pow10(s + k) as real);
  }

  lemma ScaledQuotient(x: real, p: real, q: real, xq: real, pq: real)
    requires p > 0.0 && q > 0.0 && xq == x * q && pq == p * q
    ensures xq / pq == x / p
  {
    DivCancel(x, p, q);
  }

  /** Drops redundant trailing fractional zeros. */
  function Normalize(d: Decimal): (r: Decimal)
    ensures Canonical(r) && r.scale <= d.scale
    ensures d.mantissa >= 0 ==> r.mantissa >= 0
    decreases d.scale
  {
    if d.scale > 0 && d.mantissa % 10 == 0 then Normalize(Decimal(d.mantissa / 10, d.scale - 1)) else d
  }

  lemma {:induction false} NormalizeValue(d: Decimal)
    ensures Value(Normalize(d)) == Value(d)
    decreases d.scale
  {
    if d.scale > 0 && d.mantissa % 10 == 0 {
      var e := Decimal(d.mantissa / 10, d.scale - 1);
      assert d == Decimal(e.mantissa * Pow10(1), e.scale + 1);
      ScaleUpValue(e.mantissa, 1, e.scale);
      NormalizeValue(e);
    }
  }

  lemma NormalizeCanonical(d: Decimal)
    requires Canonical(d)
    ensures Normalize(d) == d
  {
  }

  /** Exact addition: the `+=` of `Dp` and `Float` values, without rounding. */
  function Add(a: Decimal, b: Decimal): (r: Decimal)
    ensures Canonical(r)
  {
    var s := if a.scale >= b.scale then a.scale else b.scale;
    Normalize(Decimal(a.mantissa * Pow10(s - a.scale) + b.mantissa * Pow10(s - b.scale), s))
  }

  lemma AddValue(a: Decimal, b: Decimal)
    ensures Value(Add(a, b)) == Value(a) + Value(b)
  {
    var s := if a.scale >= b.scale then a.scale else b.scale;
    var ka, kb := s - a.scale, s - b.scale;
    ScaleUpValue(a.mantissa, ka, a.scale);
    ScaleUpValue(b.mantissa, kb, b.scale);
    var sum := Decimal(a.mantissa * Pow10(ka) + b.mantissa * Pow10(kb), s);
    NormalizeValue(sum);
    SumQuotient((a.mantissa * Pow10(ka)) as real, (b.mantissa * Pow10(kb)) as real, Pow10(s) as real);
  }

  /** `a < b`, compared on a common scale. */
  function Less(a: Decimal, b: Decimal): (r: bool)
    ensures r <==> Value(a) < Value(b)
  {
    var s := if a.scale >= b.scale then a.scale else b.scale;
    var x, y := a.mantissa * Pow10(s - a.scale), b.mantissa * Pow10(s - b.scale);
    ScaleUpValue(a.mantissa, s - a.scale, a.scale);
    ScaleUpValue(b.mantissa, s - b.scale, b.scale);
    QuotientLess(x, y, Pow10(s));
    x < y
  }

  lemma QuotientLess(x: int, y: int, p: nat)
    requires p > 0
    ensures x < y <==> x as real / p as real < y as real / p as real
  {
    var q := p as real;
    assert x as real / q * q == x as real && y as real / q * q == y as real;
    if x as real / q < y as real / q {
      assert x as real / q * q < y as real / q * q;
    }
  }

  lemma SumQuotient(x: real, y: real, p: real)
    requires p > 0.0
    ensures (x + y) / p == x / p + y / p
  {
  }

  // ---------------------------------------------------------------------------
  // Rendering (`Float.toString`, plain notation)

  function PadLeft(digits: string, width: nat): (t: string)
    ensures |t| >= width && |t| >= |digits|
  {
    if |digits| < width then Zeros(width - |digits|) + digits else digits
  }

  /** The digits of `a / 10^s` with at least one digit on each side of the point. */
  function UnsignedToString(a: nat, s: nat): string {
    if s == 0 then NatToString(a) + ".0"
    else
      var t := PadLeft(NatToString(a), s + 1);
      t[..|t| - s] + "." + t[|t| - s..]
  }

  function ToString(d: Decimal): string {
    if d.mantissa < 0 then "-" + UnsignedToString(-d.mantissa, d.scale)
    else UnsignedToString(d.mantissa, d.scale)
  }

  // ---------------------------------------------------------------------------
  // Reading (`String.toFloat` on a token of digits and dots)

  predicate IsNumeralChar(c: char) {
    IsDigit(c) || c == '.'
  }

  predicate IsNumeral(s: string) {
    forall i | 0 <= i < |s| :: IsNumeralChar(s[i])
  }

  /**
   * `toFloat` of a token of digits and dots: it succeeds when the token has
   * at most one point and at least one digit, and throws otherwise.
   */
  function ParseUnsigned(tok: string): (r: Option<Decimal>)
    ensures r.Some? ==> Canonical(r.value) && r.value.mantissa >= 0
  {
    if !IsNumeral(tok) then None
    else match IndexOf(tok, '.')
      case None =>
        PointFreeNumeral(tok);
        if tok == [] then None else Some(Decimal(DigitsValue(tok), 0))
      case Some(k) =>
        var whole, frac := tok[..k], tok[k + 1..];
        PointFreeNumeral(whole);
        if '.' in frac || (whole == [] && frac == []) then None
        else
          PointFreeNumeral(frac);
          DigitsValueAppend(whole, frac);
          Some(Normalize(Decimal(DigitsValue(whole + frac), |frac|)))
  }

  lemma PointFreeNumeral(s: string)
    requires IsNumeral(s) && '.' !in s
    ensures AllDigits(s)
  {
    forall i | 0 <= i < |s| ensures IsDigit(s[i]) {
      assert s[i] in s;
    }
  }

  // ---------------------------------------------------------------------------
  // Properties

  /** A non-negative value renders as a token of digits and exactly one point. */
  lemma UnsignedIsNumeral(d: Decimal)
    requires d.mantissa >= 0
    ensures IsNumeral(ToString(d)) && |ToString(d)| >= 3
  {
    var a := d.mantissa;
    if d.scale > 0 {
      var t := PadLeft(NatToString(a), d.scale + 1);
      assert AllDigits(t);
    }
  }

  /** A negative value renders with a leading minus sign, which is not a numeral character. */
  lemma NegativeNotNumeral(d: Decimal)
    requires d.mantissa < 0
    ensures |ToString(d)| >= 1 && ToString(d)[0] == '-' && !IsNumeral(ToString(d))
  {
    assert !IsNumeralChar(ToString(d)[0]);
  }

  lemma IndexOfPoint(whole: string, frac: string)
    requires '.' !in whole
    ensures IndexOf(whole + "." + frac, '.') == Some(|whole|)
  {
    var str := whole + "." + frac;
    assert str[|whole|] == '.';
    assert str[..|whole|] == whole;
  }

  /** A token `whole.frac` of digits reads as the digits of both parts over `10^|frac|`. */
  lemma ParsePointed(whole: string, frac: string)
    requires AllDigits(whole) && AllDigits(frac) && |whole| >= 1
    ensures AllDigits(whole + frac)
    ensures ParseUnsigned(whole + "." + frac) == Some(Normalize(Decimal(DigitsValue(whole + frac), |frac|)))
  {
    var str := whole + "." + frac;
    DigitsHaveNoPoint(whole);
    DigitsHaveNoPoint(frac);
    IndexOfPoint(whole, frac);
    assert IsNumeral(str) by {
      forall i | 0 <= i < |str| ensures IsNumeralChar(str[i]) {
        if i < |whole| {
          assert str[i] == whole[i];
        } else if i > |whole| {
          assert str[i] == frac[i - |whole| - 1];
        }
      }
    }
    assert str[..|whole|] == whole && str[|whole| + 1..] == frac;
    DigitsValueAppend(whole, frac);
  }

  lemma DigitsHaveNoPoint(s: string)
    requires AllDigits(s)
    ensures '.' !in s
  {
    forall i | 0 <= i < |s| ensures s[i] != '.' {
      assert IsDigit(s[i]);
    }
  }

  /** Reading back what was printed gives the same canonical, non-negative number. */
  lemma ParseToString(d: Decimal)
    requires Canonical(d) && d.mantissa >= 0
    ensures ParseUnsigned(ToString(d)) == Some(d)
  {
    if d.scale == 0 {
      ParseWholeToString(d.mantissa);
    } else {
      ParseFractionToString(d);
    }
  }

  lemma ParseWholeToString(a: nat)
    ensures ParseUnsigned(ToString(Decimal(a, 0))) == Some(Decimal(a, 0))
  {
    var digits := NatToString(a);
    DigitsValueOfNatToString(a);
    assert ToString(Decimal(a, 0)) == digits + "." + "0";
    ParsePointed(digits, "0");
    DigitsValueAppend(digits, "0");
    assert DigitsValue(digits + "0") == a * 10;
    NormalizeTenfold(a);
  }

  /** A whole number written with one zero after the point is the whole number. */
  lemma NormalizeTenfold(a: nat)
    ensures Normalize(Decimal(a * 10, 1)) == Decimal(a, 0)
  {
    assert (a * 10) % 10 == 0 && (a * 10) / 10 == a;
  }

  lemma ParseFractionToString(d: Decimal)
    requires Canonical(d) && d.mantissa >= 0 && d.scale > 0
    ensures ParseUnsigned(ToString(d)) == Some(d)
  {
    var a, s := d.mantissa, d.scale;
    var digits := NatToString(a);
    var t := PadLeft(digits, s + 1);
    assert AllDigits(t) && DigitsValue(t) == a by {
      DigitsValueOfNatToString(a);
      if |digits| < s + 1 {
        LeadingZerosValue(s + 1 - |digits|, digits);
      }
    }
    assert ToString(d) == t[..|t| - s] + "." + t[|t| - s..];
    ParseSplitDigits(t, s);
    NormalizeCanonical(d);
  }

  /** Putting a point `s` digits from the end of a digit string divides its value by `10^s`. */
  lemma ParseSplitDigits(t: string, s: nat)
    requires AllDigits(t) && |t| >= s + 1
    ensures ParseUnsigned(t[..|t| - s] + "." + t[|t| - s..]) == Some(Normalize(Decimal(DigitsValue(t), s)))
  {
    var whole, frac := t[..|t| - s], t[|t| - s..];
    assert whole + frac == t;
    ParsePointed(whole, frac);
  }
}
