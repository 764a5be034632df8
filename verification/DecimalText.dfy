/** Decimal tokens compared and reformatted digit by digit, without floating point. */
module DecimalText {
  import opened Digits
  import opened Options
  import opened Ordering

  // ---------------------------------------------------------------- tokens

  function DotAt(s: string): (k: nat)
    ensures k <= |s|
  {
    if s == "" || s[0] == '.' then 0 else 1 + DotAt(s[1..])
  }

  predicate Negative(token: string) {
    token != "" && token[0] == '-'
  }

  function Unsigned(token: string): string {
    if token != "" && (token[0] == '-' || token[0] == '+') then token[1..] else token
  }

  /** The text before the first point, and the text after it. */
  function IntegerPart(token: string): string {
    Unsigned(token)[..DotAt(Unsigned(token))]
  }

  function FractionPart(token: string): string {
    var u := Unsigned(token);
    if DotAt(u) < |u| then u[DotAt(u) + 1..] else ""
  }

  /** An optional sign, then digits with an optional point, at least one digit in all. */
  predicate IsDecimal(token: string) {
    AllDigits(IntegerPart(token)) && AllDigits(FractionPart(token))
    && (IntegerPart(token) != "" || FractionPart(token) != "")
  }

  type Token = t: string | IsDecimal(t) witness "0"

  const ZERO: Token := "0"
  const ONE: Token := "1"

  /** What a token denotes, as a multiple of ten to the minus `k`; exact for any `k` that covers its
      fraction. */
  function Magnitude(t: Token, k: nat): nat
    requires k >= |FractionPart(t)|
  {
    Value(IntegerPart(t)) * Pow10(k) + Value(FractionPart(t)) * Pow10(k - |FractionPart(t)|)
  }

  function Scaled(t: Token, k: nat): int
    requires k >= |FractionPart(t)|
  {
    var m: int := Magnitude(t, k);
    if Negative(t) then -m else m
  }

  predicate IsZero(t: Token) {
    Scaled(t, |FractionPart(t)|) == 0
  }

  function Sign(i: int): int {
    if i < 0 then -1 else if i > 0 then 1 else 0
  }

  // ---------------------------------------------------------------- the comparison

  function Max(m: nat, n: nat): nat {
    if m < n then n else m
  }

  /** The comparison on the two unsigned halves, both stripped. */
  function CompareStripped(sign: int, i: string, f: string, j: string, g: string): int {
    if |i| != |j| then sign * (|i| - |j|)
    else if i != j then sign * (if TextLess(i, j) then -1 else 1)
    else
      var width := Max(|f|, |g|);
      var left, right := PadEnd(f, width), PadEnd(g, width);
      if left == right then 0 else sign * (if TextLess(left, right) then -1 else 1)
  }

  function Stripped(t: Token): string {
    if IntegerPart(t) == "" then "0" else StripLeadingZeros(IntegerPart(t))
  }

  /** Compares two tokens: first by sign character, then digit string against digit string. */
  function Compare(a: Token, b: Token): int {
    if Negative(a) != Negative(b) then (if Negative(a) then -1 else 1)
    else
      CompareStripped(if Negative(a) then -1 else 1,
                      Stripped(a), TrimTrailingZeros(FractionPart(a)),
                      Stripped(b), TrimTrailingZeros(FractionPart(b)))
  }

  // ---------------------------------------------------------------- the comparison is exact

  lemma StrippedFacts(t: Token)
    ensures AllDigits(Stripped(t)) && Stripped(t) != "" && Value(Stripped(t)) == Value(IntegerPart(t))
    ensures |Stripped(t)| > 1 ==> Stripped(t)[0] != '0'
  {
    StripLeadingZerosValue(IntegerPart(t));
    assert Value("0") == 0 by {
      ValueZeros("0");
    }
  }

  /** Stripped digits and the padded fraction, read as one number. */
  function Aligned(i: string, f: string, width: nat): nat
    requires AllDigits(i) && AllDigits(f) && |f| <= width
  {
    Value(i) * Pow10(width) + Value(PadEnd(f, width))
  }

  lemma ThreeFactors(v: nat, a: nat, b: nat, c: nat)
    requires a <= b <= c
    ensures (v * Pow10(b - a)) * Pow10(c - b) == v * Pow10(c - a)
  {
    Pow10Add(b - a, c - b);
    Regroup(v, Pow10(b - a), Pow10(c - b));
  }

  /** A fraction trimmed of its zeros and padded to another width, up to the common scale. */
  lemma FractionRescaled(frac: string, width: nat, k: nat)
    requires AllDigits(frac) && |TrimTrailingZeros(frac)| <= width <= k && |frac| <= k
    ensures Value(frac) * Pow10(k - |frac|) == Value(PadEnd(TrimTrailingZeros(frac), width)) * Pow10(k - width)
  {
    var f := TrimTrailingZeros(frac);
    TrimTrailingZerosValue(frac);
    PadEndValue(f, width);
    ThreeFactors(Value(f), |f|, |frac|, k);
    ThreeFactors(Value(f), |f|, width, k);
  }

  /** Two parts brought to one scale, added. */
  lemma Combined(v: int, w: int, a: int, b: int, c: int, x: int)
    requires (v * a) * b == v * c && x == w * b
    ensures v * c + x == (v * a + w) * b
  {
    Distribute(v * a, w, b);
  }

  /** Stripping and padding keep the denoted number, up to the common scale. */
  lemma AlignedIsMagnitude(t: Token, width: nat, k: nat)
    requires |TrimTrailingZeros(FractionPart(t))| <= width <= k && |FractionPart(t)| <= k
    ensures Magnitude(t, k) == Aligned(Stripped(t), TrimTrailingZeros(FractionPart(t)), width) * Pow10(k - width)
  {
    var frac := FractionPart(t);
    var v, w := Value(Stripped(t)), Value(PadEnd(TrimTrailingZeros(frac), width));
    StrippedFacts(t);
    FractionRescaled(frac, width, k);
    ThreeFactors(v, 0, width, k);
    Combined(v, w, Pow10(width), Pow10(k - width), Pow10(k), Value(frac) * Pow10(k - |frac|));
  }

  lemma IntegersDecide(i: string, f: string, j: string, g: string, width: nat)
    requires AllDigits(i) && AllDigits(j) && AllDigits(f) && AllDigits(g) && |f| <= width && |g| <= width
    requires Value(i) < Value(j)
    ensures Aligned(i, f, width) < Aligned(j, g, width)
  {
    ValueBound(PadEnd(f, width));
    FrontDecides(Value(i), Value(j), Pow10(width), Value(PadEnd(f, width)));
  }

  lemma LongerIsGreater(i: string, j: string)
    requires AllDigits(i) && AllDigits(j) && i != "" && j != "" && |i| < |j| && j[0] != '0'
    ensures Value(i) < Value(j)
  {
    ValueBound(i);
    LeadingDigit(j);
    Pow10Monotone(|i|, |j| - 1);
  }

  /** Without signs, the comparison is the comparison of the aligned numbers. */
  lemma StrippedCompareExact(i: string, f: string, j: string, g: string)
    requires AllDigits(i) && AllDigits(j) && AllDigits(f) && AllDigits(g) && i != "" && j != ""
    requires |i| > 1 ==> i[0] != '0'
    requires |j| > 1 ==> j[0] != '0'
    ensures var width := Max(|f|, |g|);
            Sign(CompareStripped(1, i, f, j, g)) == Sign(Aligned(i, f, width) - Aligned(j, g, width))
  {
    var width := Max(|f|, |g|);
    if |i| < |j| {
      LongerIsGreater(i, j);
      IntegersDecide(i, f, j, g, width);
    } else if |j| < |i| {
      LongerIsGreater(j, i);
      IntegersDecide(j, g, i, f, width);
    } else {
      SameLengthOrder(i, j);
      if Value(i) < Value(j) {
        IntegersDecide(i, f, j, g, width);
      } else if Value(j) < Value(i) {
        IntegersDecide(j, g, i, f, width);
      } else {
        SameLengthOrder(PadEnd(f, width), PadEnd(g, width));
      }
    }
  }

  lemma SignFlips(i: string, f: string, j: string, g: string)
    ensures CompareStripped(-1, i, f, j, g) == -CompareStripped(1, i, f, j, g)
  {
  }

  lemma ScalingKeepsSign(x: nat, y: nat, p: nat)
    requires p >= 1
    ensures Sign(x * p - y * p) == Sign(x - y)
  {
    if x < y {
      FrontDecides(x, y, p, 0);
    } else if y < x {
      FrontDecides(y, x, p, 0);
    }
  }

  lemma MagnitudesCompareExact(a: Token, b: Token, k: nat)
    requires k >= |FractionPart(a)| && k >= |FractionPart(b)|
    ensures Sign(CompareStripped(1, Stripped(a), TrimTrailingZeros(FractionPart(a)),
                                 Stripped(b), TrimTrailingZeros(FractionPart(b))))
            == Sign(Magnitude(a, k) - Magnitude(b, k))
  {
    var f, g := TrimTrailingZeros(FractionPart(a)), TrimTrailingZeros(FractionPart(b));
    var width := Max(|f|, |g|);
    StrippedFacts(a);
    StrippedFacts(b);
    StrippedCompareExact(Stripped(a), f, Stripped(b), g);
    AlignedIsMagnitude(a, width, k);
    AlignedIsMagnitude(b, width, k);
    ScalingKeepsSign(Aligned(Stripped(a), f, width), Aligned(Stripped(b), g, width), Pow10(k - width));
  }

  lemma Rescale(t: Token, k: nat)
    requires k >= |FractionPart(t)|
    ensures Magnitude(t, k) == Magnitude(t, |FractionPart(t)|) * Pow10(k - |FractionPart(t)|)
  {
    var n, v, w := |FractionPart(t)|, Value(IntegerPart(t)), Value(FractionPart(t));
    ThreeFactors(v, 0, n, k);
    ThreeFactors(w, n, n, k);
    Distribute(v * Pow10(n), w * Pow10(n - n), Pow10(k - n));
  }

  lemma ZeroIsScaleFree(t: Token, k: nat)
    requires k >= |FractionPart(t)|
    ensures IsZero(t) <==> Magnitude(t, k) == 0
  {
    Rescale(t, k);
    ScalingKeepsSign(Magnitude(t, |FractionPart(t)|), 0, Pow10(k - |FractionPart(t)|));
  }

  /** The comparison returns the sign of the exact difference, except on two zeros of which exactly one
      carries a minus sign. */
  lemma CompareExact(a: Token, b: Token, k: nat)
    requires k >= |FractionPart(a)| && k >= |FractionPart(b)|
    ensures Sign(Compare(a, b)) == Sign(Scaled(a, k) - Scaled(b, k))
            <==> !(IsZero(a) && IsZero(b) && Negative(a) != Negative(b))
  {
    ZeroIsScaleFree(a, k);
    ZeroIsScaleFree(b, k);
    MagnitudesCompareExact(a, b, k);
    SignFlips(Stripped(a), TrimTrailingZeros(FractionPart(a)), Stripped(b), TrimTrailingZeros(FractionPart(b)));
  }

  predicate SignedZero(t: Token) {
    IsZero(t) && Negative(t)
  }

  /** The exception does occur. */
  lemma MinusZeroIsBelowZero()
    ensures IsDecimal("-0") && IsDecimal("0") && Compare("-0", "0") == -1
    ensures Scaled("-0", 0) == Scaled("0", 0)
  {
    var m := "-0";
    assert m[1..] == "0";
    assert "0"[1..] == "";
    assert DotAt("0") == 1 && DotAt("") == 0;
    assert Unsigned("-0") == "0" && Unsigned("0") == "0";
    assert IntegerPart("-0") == "0" && IntegerPart("0") == "0";
    assert FractionPart("-0") == "" && FractionPart("0") == "";
    ValueZeros("0");
  }

  /** On tokens that do not denote a signed zero the comparison is a total preorder: total,
      antisymmetric in sign and transitive. */
  lemma TotalPreorder(a: Token, b: Token, c: Token)
    requires !SignedZero(a) && !SignedZero(b) && !SignedZero(c)
    ensures Sign(Compare(a, b)) == -Sign(Compare(b, a))
    ensures Compare(a, b) <= 0 && Compare(b, c) <= 0 ==> Compare(a, c) <= 0
    ensures Compare(a, a) == 0
  {
    var k := Max(|FractionPart(a)|, Max(|FractionPart(b)|, |FractionPart(c)|));
    CompareExact(a, b, k);
    CompareExact(b, a, k);
    CompareExact(b, c, k);
    CompareExact(a, c, k);
    CompareExact(a, a, k);
  }

  // ---------------------------------------------------------------- bounded tokens

  datatype JsValue = JsNull | JsString(text: string) | JsOther

  datatype Checked = Absent | Token(text: string) | Rejected

  /** The check of a field: null passes, anything but a decimal token is refused, and a token must not
      compare outside the bounds, when bounds are given. */
  function AsDecimalString(value: JsValue, bounded: bool): Checked {
    match value
    case JsNull => Absent
    case JsOther => Rejected
    case JsString(t) =>
      if !IsDecimal(t) then Rejected
      else if bounded && (Compare(t, ZERO) < 0 || Compare(t, ONE) > 0) then Rejected
      else Token(t)
  }

  lemma UnitTokens()
    ensures IsDecimal("0") && IsDecimal("1")
    ensures FractionPart("0") == "" && FractionPart("1") == "" && !Negative("0") && !Negative("1")
    ensures forall k: nat :: Scaled("0", k) == 0 && Scaled("1", k) == Pow10(k)
  {
    assert "0"[1..] == "" && "1"[1..] == "" && DotAt("0") == 1 && DotAt("1") == 1;
    assert IntegerPart("0") == "0" && IntegerPart("1") == "1";
    assert "1"[..0] == "" && "0"[..0] == "";
    assert Value("0") == 0 && Value("1") == 1;
  }

  /** With bounds zero and one, a string is accepted exactly when it is a decimal token in range that is
      not a signed zero. */
  lemma BoundedAcceptsExactly(t: string)
    ensures AsDecimalString(JsString(t), true) == Token(t) <==>
            IsDecimal(t) && !SignedZero(t)
            && 0 <= Scaled(t, |FractionPart(t)|) <= Pow10(|FractionPart(t)|)
  {
    UnitTokens();
    if IsDecimal(t) {
      var k := |FractionPart(t)|;
      CompareExact(t, ZERO, k);
      CompareExact(t, ONE, k);
    }
  }

  // ---------------------------------------------------------------- percent text

  /** The white space that trimming removes. */
  predicate IsSpace(c: char) {
    var u := c as int;
    || 0x09 <= u <= 0x0d || u == 0x20 || u == 0xa0 || u == 0x1680 || 0x2000 <= u <= 0x200a
    || u == 0x2028 || u == 0x2029 || u == 0x202f || u == 0x205f || u == 0x3000 || u == 0xfeff
  }

  function TrimStart(s: string): string {
    if s != "" && IsSpace(s[0]) then TrimStart(s[1..]) else s
  }

  function TrimEnd(s: string): string {
    if s != "" && IsSpace(s[|s| - 1]) then TrimEnd(s[..|s| - 1]) else s
  }

  /** An optional minus, digits, and optionally a point with digits after it. */
  predicate PlainDecimal(s: string) {
    var u := if Negative(s) then s[1..] else s;
    var whole := u[..DotAt(u)];
    whole != "" && AllDigits(whole) && (DotAt(u) < |u| ==> u[DotAt(u) + 1..] != "" && AllDigits(u[DotAt(u) + 1..]))
  }

  lemma PlainDecimalIsToken(s: string)
    requires PlainDecimal(s)
    ensures IsDecimal(s) && IntegerPart(s) != ""
  {
    var u := if Negative(s) then s[1..] else s;
    assert u[0] == u[..DotAt(u)][0];
    assert u == Unsigned(s);
  }

  predicate AllZeros(s: string) {
    forall i :: 0 <= i < |s| ==> s[i] == '0'
  }

  /** The digits shifted two places: the integer part of the percent and its two decimals. */
  function Shifted(whole: string, fraction: string): (r: (string, string))
    requires AllDigits(whole) && AllDigits(fraction)
  {
    var shifted := PadEnd(fraction, 2);
    (StripLeadingZeros(whole + shifted[..2]), PadEnd(shifted[2..], 2)[..2])
  }

  function FormatYieldPercent(value: Option<string>): Option<string> {
    if value.None? then None
    else
      var s := TrimEnd(TrimStart(value.value));
      if !PlainDecimal(s) then None
      else
        PlainDecimalIsToken(s);
        var (integerPart, decimalPart) := Shifted(IntegerPart(s), FractionPart(s));
        var signed := if AllZeros(integerPart + decimalPart) then "" else if Negative(s) then "-" else "";
        Some(signed + integerPart + "." + decimalPart + "%")
  }

  /** Four fraction digits, cut or padded. */
  function FourDigits(fraction: string): (r: string)
    requires AllDigits(fraction)
    ensures AllDigits(r) && |r| == 4
  {
    PadEnd(fraction, 4)[..4]
  }

  /** Hundredths of a percent, cut: the value times ten thousand, rounded toward zero. */
  function Hundredths(t: Token): nat {
    Value(IntegerPart(t) + FourDigits(FractionPart(t)))
  }

  lemma TenThousand()
    ensures Pow10(2) == 100 && Pow10(4) == 10000
  {
    assert Pow10(1) == 10;
    assert Pow10(3) == 1000;
  }

  lemma PaddedScaled(frac: string, width: nat)
    requires AllDigits(frac) && |frac| <= width
    ensures Value(PadEnd(frac, width)) * Pow10(|frac|) == Value(frac) * Pow10(width)
  {
    var u, v := Value(PadEnd(frac, width)), Value(frac);
    var p, q, scale := Pow10(width - |frac|), Pow10(|frac|), Pow10(width);
    assert u == v * p by {
      PadEndValue(frac, width);
    }
    assert p * q == scale by {
      Pow10Add(width - |frac|, |frac|);
    }
    ScaledTo(u, v, p, q, scale);
  }

  lemma ShortFractionCut(frac: string)
    requires AllDigits(frac) && |frac| <= 4
    ensures Value(FourDigits(frac)) * Pow10(|frac|) == Value(frac) * 10000
  {
    assert FourDigits(frac) == PadEnd(frac, 4);
    PaddedScaled(frac, 4);
    TenThousand();
  }

  lemma ScaledTo(u: int, v: int, p: int, q: int, scale: int)
    requires u == v * p && p * q == scale
    ensures u * q == v * scale
  {
    Regroup(v, p, q);
  }

  lemma LongFractionCut(frac: string)
    requires AllDigits(frac) && |frac| > 4
    ensures Value(FourDigits(frac)) * Pow10(|frac|) <= Value(frac) * 10000
    ensures Value(frac) * 10000 < Value(FourDigits(frac)) * Pow10(|frac|) + Pow10(|frac|)
  {
    var head, rest := frac[..4], frac[4..];
    assert frac == head + rest && FourDigits(frac) == head;
    ValueConcat(head, rest);
    ValueBound(rest);
    Pow10Add(|rest|, 4);
    TenThousand();
    Regroup(Value(head), Pow10(|rest|), 10000);
  }

  lemma FractionCut(frac: string)
    requires AllDigits(frac)
    ensures Value(FourDigits(frac)) * Pow10(|frac|) <= Value(frac) * 10000
    ensures Value(frac) * 10000 < Value(FourDigits(frac)) * Pow10(|frac|) + Pow10(|frac|)
  {
    if |frac| <= 4 {
      ShortFractionCut(frac);
    } else {
      LongFractionCut(frac);
    }
  }

  lemma CutWithWhole(v: int, w: int, f: int, p: int)
    requires w * p <= f * 10000 < w * p + p
    ensures (v * 10000 + w) * p <= (v * p + f) * 10000 < (v * 10000 + w + 1) * p
  {
    Distribute(v * 10000, w, p);
    Distribute(v * 10000 + w, 1, p);
    Regroup(v, 10000, p);
    Regroup(v, p, 10000);
  }

  /** It is the cut: in units of ten to the minus `k` the magnitude times ten thousand lies between it
      and its successor. */
  lemma HundredthsCut(t: Token)
    ensures var k := |FractionPart(t)|;
            Hundredths(t) * Pow10(k) <= Magnitude(t, k) * 10000 < (Hundredths(t) + 1) * Pow10(k)
  {
    var i, f := IntegerPart(t), FractionPart(t);
    ValueConcat(i, FourDigits(f));
    TenThousand();
    FractionCut(f);
    CutWithWhole(Value(i), Value(FourDigits(f)), Value(f), Pow10(|f|));
    assert Pow10(|f| - |f|) == 1;
  }

  lemma ZerosHaveNoValue(s: string)
    requires AllDigits(s)
    ensures AllZeros(s) <==> Value(s) == 0
  {
    if AllZeros(s) {
      ValueZeros(s);
    }
    if Value(s) == 0 {
      ZeroValue(s);
    }
  }

  /** Two digits at the end of a number are its remainder by one hundred. */
  lemma LastTwo(head: string, d: string)
    requires AllDigits(head) && AllDigits(d) && |d| == 2
    ensures Value(head + d) == Value(head) * 100 + Value(d)
    ensures Value(head + d) / 100 == Value(head) && Value(head + d) % 100 == Value(d)
  {
    ValueConcat(head, d);
    ValueBound(d);
    TenThousand();
  }

  lemma ShiftedText(whole: string, fraction: string)
    requires AllDigits(whole) && AllDigits(fraction)
    ensures |PadEnd(fraction, 2)| >= 2
    ensures Shifted(whole, fraction).0 == StripLeadingZeros(whole + PadEnd(fraction, 2)[..2])
    ensures AllDigits(Shifted(whole, fraction).1) && |Shifted(whole, fraction).1| == 2
    ensures whole + FourDigits(fraction) == (whole + PadEnd(fraction, 2)[..2]) + Shifted(whole, fraction).1
  {
    var shifted := PadEnd(fraction, 2);
    assert FourDigits(fraction) == shifted[..2] + Shifted(whole, fraction).1;
  }

  lemma ShiftedDigits(whole: string, fraction: string)
    requires AllDigits(whole) && whole != "" && AllDigits(fraction)
    ensures var n := Value(whole + FourDigits(fraction));
            var (i, d) := Shifted(whole, fraction);
            && i == Decimal(n / 100)
            && AllDigits(d) && |d| == 2 && Value(d) == n % 100
            && (AllZeros(i + d) <==> n == 0)
  {
    ShiftedText(whole, fraction);
    var head, d := whole + PadEnd(fraction, 2)[..2], Shifted(whole, fraction).1;
    LastTwo(head, d);
    SpellingOfStripped(head);
    DecimalValue(Value(head));
    LastTwo(Decimal(Value(head)), d);
    ZerosHaveNoValue(Decimal(Value(head)) + d);
  }

  /** A plain decimal prints as its value times one hundred, cut toward zero to two decimals: the
      canonical spelling of the whole percents, two digits of hundredths, and a minus sign only when
      something is left after the cut. Every other text prints as nothing. */
  lemma PercentIsTheCutValue(value: string)
    ensures var s := TrimEnd(TrimStart(value));
            if !PlainDecimal(s) then FormatYieldPercent(Some(value)) == None
            else
              && IsDecimal(s)
              && exists decimals ::
                   && AllDigits(decimals) && |decimals| == 2 && Value(decimals) == Hundredths(s) % 100
                   && FormatYieldPercent(Some(value))
                      == Some((if Negative(s) && Hundredths(s) > 0 then "-" else "")
                              + Decimal(Hundredths(s) / 100) + "." + decimals + "%")
  {
    var s := TrimEnd(TrimStart(value));
    if PlainDecimal(s) {
      PlainDecimalIsToken(s);
      ShiftedDigits(IntegerPart(s), FractionPart(s));
      var (i, d) := Shifted(IntegerPart(s), FractionPart(s));
      assert FormatYieldPercent(Some(value))
          == Some((if Negative(s) && Hundredths(s) > 0 then "-" else "")
                  + Decimal(Hundredths(s) / 100) + "." + d + "%");
    }
  }
}
