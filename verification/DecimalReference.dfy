/** Decimal tokens once more, by how they are put together. */
module DecimalReference {
  import opened DecimalText
  import opened Digits
  import opened Options

  /** A sign, the digits before the point, whether there is one, and the digits after it. */
  datatype Spelling = Spelling(sign: string, whole: string, point: bool, fraction: string)

  function TextOf(p: Spelling): string {
    p.sign + (p.whole + if p.point then "." + p.fraction else "")
  }

  /** What the pattern of a token asks: digits on one side of the point at least. */
  ghost predicate Fits(p: Spelling) {
    && p.sign in {"", "+", "-"} && AllDigits(p.whole) && AllDigits(p.fraction)
    && (p.whole != "" || p.fraction != "") && (!p.point ==> p.fraction == "")
  }

  /** What the pattern of a yield asks: no plus, and digits on both sides of a point. */
  ghost predicate FitsYield(p: Spelling) {
    p.sign in {"", "-"} && Fits(p) && p.whole != "" && (p.point <==> p.fraction != "")
  }

  lemma {:induction false} DotAfter(whole: string, rest: string)
    requires AllDigits(whole) && (rest == "" || rest[0] == '.')
    ensures DotAt(whole + rest) == |whole|
  {
    if whole == "" {
      assert whole + rest == rest;
    } else {
      assert (whole + rest)[1..] == whole[1..] + rest;
      DotAfter(whole[1..], rest);
    }
  }

  lemma {:induction false} DotFound(s: string)
    ensures DotAt(s) < |s| ==> s[DotAt(s)] == '.'
  {
    if s != "" && s[0] != '.' {
      DotFound(s[1..]);
    }
  }

  lemma PartsInto(p: Spelling)
    requires Fits(p)
    ensures Unsigned(TextOf(p)) == p.whole + (if p.point then "." + p.fraction else "")
    ensures Negative(TextOf(p)) <==> p.sign == "-"
    ensures IsDecimal(TextOf(p)) && IntegerPart(TextOf(p)) == p.whole && FractionPart(TextOf(p)) == p.fraction
  {
    var t, rest := TextOf(p), if p.point then "." + p.fraction else "";
    var u := p.whole + rest;
    SignOff(p.sign, u);
    DotAfter(p.whole, rest);
    assert u[..|p.whole|] == p.whole;
    if p.point {
      assert u[|p.whole| + 1..] == p.fraction;
    }
  }

  lemma SignOff(sign: string, u: string)
    requires sign in {"", "+", "-"} && u != "" && u[0] != '-' && u[0] != '+'
    ensures Unsigned(sign + u) == u && (Negative(sign + u) <==> sign == "-")
  {
    assert sign != "" ==> (sign + u)[0] == sign[0] && (sign + u)[1..] == u;
    assert sign == "" ==> sign + u == u;
  }

  lemma Cut(u: string, k: nat)
    requires k < |u|
    ensures u == u[..k] + ([u[k]] + u[k + 1..])
  {
  }

  lemma SplitAtDot(u: string)
    ensures DotAt(u) < |u| ==> u == u[..DotAt(u)] + ("." + u[DotAt(u) + 1..])
    ensures DotAt(u) == |u| ==> u == u[..DotAt(u)]
  {
    if DotAt(u) < |u| {
      DotFound(u);
      Cut(u, DotAt(u));
    }
  }

  lemma SplitSign(t: string) returns (sign: string)
    ensures sign in {"", "+", "-"} && t == sign + Unsigned(t)
  {
    sign := if t != "" && t[0] == '-' then "-" else if t != "" && t[0] == '+' then "+" else "";
    assert sign != "" ==> t == [t[0]] + t[1..];
  }

  lemma PartsFrom(t: string) returns (p: Spelling)
    requires IsDecimal(t)
    ensures Fits(p) && TextOf(p) == t
  {
    var u := Unsigned(t);
    var sign := SplitSign(t);
    SplitAtDot(u);
    p := Spelling(sign, u[..DotAt(u)], DotAt(u) < |u|, if DotAt(u) < |u| then u[DotAt(u) + 1..] else "");
  }

  /** The tokens are exactly the texts put together from fitting parts. */
  lemma TokenMeaning(t: string)
    ensures IsDecimal(t) <==> exists p :: Fits(p) && TextOf(p) == t
  {
    if IsDecimal(t) {
      var p := PartsFrom(t);
    }
    if exists p :: Fits(p) && TextOf(p) == t {
      var p :| Fits(p) && TextOf(p) == t;
      PartsInto(p);
    }
  }

  lemma Shift(v: int, w: int, f: int, a: int, b: int, c: int)
    requires v == w * a + f && c == a * b
    ensures w * c + f * b == v * b
  {
    Distribute(w * a, f, b);
    Regroup(w, a, b);
  }

  lemma JoinedMagnitude(t: Token, whole: string, fraction: string, k: nat)
    requires IntegerPart(t) == whole && FractionPart(t) == fraction && k >= |fraction|
    ensures AllDigits(whole + fraction)
    ensures Magnitude(t, k) == Value(whole + fraction) * Pow10(k - |fraction|)
  {
    var n := |fraction|;
    ValueConcat(whole, fraction);
    Pow10Add(n, k - n);
    Shift(Value(whole + fraction), Value(whole), Value(fraction), Pow10(n), Pow10(k - n), Pow10(k));
  }

  lemma MagnitudeMeaning(p: Spelling, k: nat)
    requires Fits(p) && k >= |p.fraction|
    ensures IsDecimal(TextOf(p)) && FractionPart(TextOf(p)) == p.fraction && AllDigits(p.whole + p.fraction)
    ensures Magnitude(TextOf(p), k) == Value(p.whole + p.fraction) * Pow10(k - |p.fraction|)
  {
    PartsInto(p);
    var t: Token := TextOf(p);
    JoinedMagnitude(t, p.whole, p.fraction, k);
  }

  /** A token denotes its digits read as one number, the point moved back, with its sign. */
  lemma ScaledMeaning(p: Spelling, k: nat)
    requires Fits(p) && k >= |p.fraction|
    ensures IsDecimal(TextOf(p)) && FractionPart(TextOf(p)) == p.fraction && AllDigits(p.whole + p.fraction)
    ensures var m: int := Value(p.whole + p.fraction) * Pow10(k - |p.fraction|);
            Scaled(TextOf(p), k) == if p.sign == "-" then -m else m
  {
    PartsInto(p);
    MagnitudeMeaning(p, k);
  }

  lemma YieldFrom(s: string) returns (p: Spelling)
    requires PlainDecimal(s)
    ensures FitsYield(p) && TextOf(p) == s
  {
    PlainDecimalIsToken(s);
    p := PartsFrom(s);
    PartsInto(p);
    var u := if Negative(s) then s[1..] else s;
    assert u[0] == u[..DotAt(u)][0];
    assert u == Unsigned(s);
    DotFound(u);
    assert DotAt(u) == |p.whole|;
  }

  lemma YieldInto(p: Spelling)
    requires FitsYield(p)
    ensures PlainDecimal(TextOf(p))
  {
    PartsInto(p);
    var t := TextOf(p);
    assert t[0] != '+';
    assert Unsigned(t) == if Negative(t) then t[1..] else t;
    DotAfter(p.whole, if p.point then "." + p.fraction else "");
  }

  // ---------------------------------------------------------------- trimming

  ghost predicate Blank(s: string) {
    forall c :: c in s ==> IsSpace(c)
  }

  lemma {:induction false} StartTrimmed(lead: string, s: string)
    requires Blank(lead) && (s == "" || !IsSpace(s[0]))
    ensures TrimStart(lead + s) == s
  {
    if lead == "" {
      assert lead + s == s;
    } else {
      assert lead[0] in lead && (lead + s)[1..] == lead[1..] + s;
      StartTrimmed(lead[1..], s);
    }
  }

  lemma {:induction false} EndTrimmed(s: string, trail: string)
    requires Blank(trail) && (s == "" || !IsSpace(s[|s| - 1]))
    ensures TrimEnd(s + trail) == s
  {
    if trail == "" {
      assert s + trail == s;
    } else {
      var init := trail[..|trail| - 1];
      assert (s + trail)[..|s + trail| - 1] == s + init && (s + trail)[|s + trail| - 1] == trail[|trail| - 1];
      EndTrimmed(s, init);
    }
  }

  lemma {:induction false} StartCut(s: string) returns (lead: string)
    ensures Blank(lead) && s == lead + TrimStart(s)
  {
    if s != "" && IsSpace(s[0]) {
      var rest := StartCut(s[1..]);
      lead := [s[0]] + rest;
    } else {
      lead := "";
    }
  }

  lemma {:induction false} EndCut(s: string) returns (trail: string)
    ensures Blank(trail) && s == TrimEnd(s) + trail
  {
    if s != "" && IsSpace(s[|s| - 1]) {
      var rest := EndCut(s[..|s| - 1]);
      trail := rest + [s[|s| - 1]];
    } else {
      trail := "";
    }
  }

  /** Texts that hold the yield between white space. */
  ghost predicate Holds(value: string, p: Spelling) {
    FitsYield(p) && exists lead, trail :: Blank(lead) && Blank(trail) && value == lead + TextOf(p) + trail
  }

  lemma HoldsFrom(value: string) returns (p: Spelling)
    requires PlainDecimal(TrimEnd(TrimStart(value)))
    ensures Holds(value, p) && TextOf(p) == TrimEnd(TrimStart(value))
  {
    var lead := StartCut(value);
    var trail := EndCut(TrimStart(value));
    p := YieldFrom(TrimEnd(TrimStart(value)));
    assert value == lead + TextOf(p) + trail;
  }

  lemma HeldIsTrimmed(value: string, p: Spelling)
    requires Holds(value, p)
    ensures TrimEnd(TrimStart(value)) == TextOf(p)
  {
    var lead, trail :| Blank(lead) && Blank(trail) && value == lead + TextOf(p) + trail;
    var t := TextOf(p);
    YieldEnds(p);
    assert value == lead + (t + trail) && (t + trail)[0] == t[0];
    StartTrimmed(lead, t + trail);
    EndTrimmed(t, trail);
  }

  lemma YieldEnds(p: Spelling)
    requires FitsYield(p)
    ensures TextOf(p) != "" && !IsSpace(TextOf(p)[0]) && !IsSpace(TextOf(p)[|TextOf(p)| - 1])
  {
    var t, rest := TextOf(p), if p.point then "." + p.fraction else "";
    assert t[0] == if p.sign != "" then p.sign[0] else p.whole[0];
    assert t[|t| - 1] == if p.point then p.fraction[|p.fraction| - 1] else p.whole[|p.whole| - 1];
  }

  /** The greatest number of hundredths of a percent in so many units of one over the scale. */
  predicate IsCut(n: nat, units: nat, scale: nat) {
    n * scale <= units * 10000 < (n + 1) * scale
  }

  /** The yield prints as `n` hundredths of a percent: `n` is the greatest number of them in its magnitude, and
      its digits are written with a point before the last two and a minus when the yield has one and `n` is
      not zero. */
  ghost predicate Prints(value: string, p: Spelling, n: nat, decimals: string)
    requires AllDigits(p.whole) && AllDigits(p.fraction)
  {
    && AllDigits(p.whole + p.fraction)
    && IsCut(n, Value(p.whole + p.fraction), Pow10(|p.fraction|))
    && AllDigits(decimals) && |decimals| == 2 && Value(decimals) == n % 100
    && FormatYieldPercent(Some(value))
       == Some((if p.sign == "-" && n > 0 then "-" else "") + Decimal(n / 100) + "." + decimals + "%")
  }

  /** A text that holds a yield prints as one hundred times its value, cut to two decimals. Every other text
      prints as nothing. */
  lemma PercentMeaning(value: string)
    ensures FormatYieldPercent(Some(value)).None? <==> forall p :: !Holds(value, p)
    ensures forall p :: Holds(value, p) ==> exists n: nat, decimals :: Prints(value, p, n, decimals)
  {
    if PlainDecimal(TrimEnd(TrimStart(value))) {
      var p := HoldsFrom(value);
    }
    PercentIsTheCutValue(value);
    forall p | Holds(value, p)
      ensures exists n: nat, decimals :: Prints(value, p, n, decimals)
    {
      var n, decimals := HeldPrints(value, p);
    }
    forall p | Holds(value, p)
      ensures PlainDecimal(TrimEnd(TrimStart(value)))
    {
      HeldIsTrimmed(value, p);
      YieldInto(p);
    }
  }

  lemma TimesOne(m: int, v: int, one: int)
    requires m == v * one && one == 1
    ensures m == v
  {
  }

  lemma CutOf(t: Token, whole: string, fraction: string)
    requires IntegerPart(t) == whole && FractionPart(t) == fraction
    ensures AllDigits(whole + fraction)
    ensures IsCut(Hundredths(t), Value(whole + fraction), Pow10(|fraction|))
  {
    var k := |fraction|;
    JoinedMagnitude(t, whole, fraction, k);
    TimesOne(Magnitude(t, k), Value(whole + fraction), Pow10(k - k));
    HundredthsCut(t);
    assert k == |FractionPart(t)|;
  }

  lemma PrintedDecimals(value: string, t: string) returns (decimals: string)
    requires TrimEnd(TrimStart(value)) == t && PlainDecimal(t)
    ensures IsDecimal(t) && AllDigits(decimals) && |decimals| == 2 && Value(decimals) == Hundredths(t) % 100
    ensures FormatYieldPercent(Some(value))
            == Some((if Negative(t) && Hundredths(t) > 0 then "-" else "")
                    + Decimal(Hundredths(t) / 100) + "." + decimals + "%")
  {
    PercentIsTheCutValue(value);
    decimals :| AllDigits(decimals) && |decimals| == 2 && Value(decimals) == Hundredths(t) % 100
                && FormatYieldPercent(Some(value))
                   == Some((if Negative(t) && Hundredths(t) > 0 then "-" else "")
                           + Decimal(Hundredths(t) / 100) + "." + decimals + "%");
  }

  lemma HeldPrints(value: string, p: Spelling) returns (n: nat, decimals: string)
    requires Holds(value, p)
    ensures Prints(value, p, n, decimals)
  {
    HeldIsTrimmed(value, p);
    YieldInto(p);
    PartsInto(p);
    decimals := PrintedDecimals(value, TextOf(p));
    var t: Token := TextOf(p);
    CutOf(t, p.whole, p.fraction);
    n := Hundredths(t);
  }
}
