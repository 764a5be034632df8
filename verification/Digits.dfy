/** Decimal digit strings: their value, their canonical spelling and their comparison. */
module Digits {
  import opened Ordering

  predicate IsDigit(c: char) {
    '0' <= c <= '9'
  }

  predicate AllDigits(s: string) {
    forall i :: 0 <= i < |s| ==> IsDigit(s[i])
  }

  function DigitValue(c: char): nat
    requires IsDigit(c)
  {
    c as int - '0' as int
  }

  function DigitChar(d: nat): (c: char)
    requires d < 10
    ensures IsDigit(c) && DigitValue(c) == d
  {
    ('0' as int + d) as char
  }

  function Pow10(n: nat): (r: nat)
    ensures r >= 1
  {
    if n == 0 then 1 else 10 * Pow10(n - 1)
  }

  /** The number a digit string denotes; the empty string denotes zero. */
  function Value(s: string): nat
    requires AllDigits(s)
  {
    if s == "" then 0 else 10 * Value(s[..|s| - 1]) + DigitValue(s[|s| - 1])
  }

  /** The spelling of a number without superfluous zeros. */
  function Decimal(n: nat): (s: string)
    ensures s != "" && AllDigits(s)
  {
    if n < 10 then [DigitChar(n)] else Decimal(n / 10) + [DigitChar(n % 10)]
  }

  lemma {:induction false} DecimalValue(n: nat)
    ensures Value(Decimal(n)) == n
    ensures |Decimal(n)| > 1 ==> Decimal(n)[0] != '0'
    ensures n > 0 ==> Decimal(n)[0] != '0'
  {
    var s := Decimal(n);
    if n < 10 {
      assert s[..|s| - 1] == "";
    } else {
      DecimalValue(n / 10);
      assert s[..|s| - 1] == Decimal(n / 10) && s[|s| - 1] == DigitChar(n % 10);
    }
  }

  lemma DecimalInjective(m: nat, n: nat)
    requires Decimal(m) == Decimal(n)
    ensures m == n
  {
    DecimalValue(m);
    DecimalValue(n);
  }

  lemma MulTen(x: int, p: int)
    ensures 10 * (x * p) == x * (10 * p)
  {
  }

  lemma Distribute(x: int, y: int, p: int)
    ensures (x + y) * p == x * p + y * p
  {
  }

  lemma Regroup(x: int, p: int, q: int)
    ensures (x * p) * q == x * (p * q)
  {
  }

  lemma {:induction false} Pow10Add(m: nat, n: nat)
    ensures Pow10(m + n) == Pow10(m) * Pow10(n)
  {
    if n > 0 {
      Pow10Add(m, n - 1);
      MulTen(Pow10(m), Pow10(n - 1));
    }
  }

  lemma {:induction false} ValueBound(s: string)
    requires AllDigits(s)
    ensures Value(s) < Pow10(|s|)
  {
    if s != "" {
      ValueBound(s[..|s| - 1]);
    }
  }

  lemma {:induction false} ValueConcat(a: string, b: string)
    requires AllDigits(a) && AllDigits(b)
    ensures AllDigits(a + b)
    ensures Value(a + b) == Value(a) * Pow10(|b|) + Value(b)
  {
    if b == "" {
      assert a + b == a;
    } else {
      var init, last := b[..|b| - 1], b[|b| - 1];
      ValueConcat(a, init);
      assert (a + b)[..|a + b| - 1] == a + init && (a + b)[|a + b| - 1] == last;
      OneMoreDigit(Value(a), Pow10(|init|), Value(init), DigitValue(last));
    }
  }

  lemma OneMoreDigit(x: int, p: int, y: int, d: int)
    ensures 10 * (x * p + y) + d == x * (10 * p) + (10 * y + d)
  {
    MulTen(x, p);
  }

  lemma {:induction false} ValueZeros(s: string)
    requires forall i :: 0 <= i < |s| ==> s[i] == '0'
    ensures AllDigits(s) && Value(s) == 0
  {
    if s != "" {
      ValueZeros(s[..|s| - 1]);
    }
  }

  lemma {:induction false} ZeroValue(s: string)
    requires AllDigits(s) && Value(s) == 0
    ensures forall i :: 0 <= i < |s| ==> s[i] == '0'
  {
    if s != "" {
      ZeroValue(s[..|s| - 1]);
    }
  }

  /** The value peeled from the front. */
  lemma ValueFront(s: string)
    requires AllDigits(s) && s != ""
    ensures AllDigits(s[1..])
    ensures Value(s) == DigitValue(s[0]) * Pow10(|s| - 1) + Value(s[1..])
  {
    var head := [s[0]];
    assert s == head + s[1..];
    assert head[..0] == "" && Value(head[..0]) == 0;
    assert Value(head) == DigitValue(s[0]);
    ValueConcat(head, s[1..]);
  }

  /** Among digit strings of one length, text order is the order of values. */
  lemma {:induction false} SameLengthOrder(a: string, b: string)
    requires AllDigits(a) && AllDigits(b) && |a| == |b|
    ensures TextLess(a, b) <==> Value(a) < Value(b)
    ensures a == b <==> Value(a) == Value(b)
  {
    if a != "" {
      ValueFront(a);
      ValueFront(b);
      ValueBound(a[1..]);
      ValueBound(b[1..]);
      SameLengthOrder(a[1..], b[1..]);
      assert a == [a[0]] + a[1..] && b == [b[0]] + b[1..];
      var x, y, p := DigitValue(a[0]), DigitValue(b[0]), Pow10(|a| - 1);
      if a[0] < b[0] {
        FrontDecides(x, y, p, Value(a[1..]));
      } else if b[0] < a[0] {
        FrontDecides(y, x, p, Value(b[1..]));
      }
    }
  }

  lemma Times(x: nat, p: nat)
    ensures (x + 1) * p == x * p + p
  {
  }

  lemma {:induction false} MulMonotone(x: nat, y: nat, p: nat)
    requires x <= y
    ensures x * p <= y * p
    decreases y - x
  {
    if x < y {
      Times(x, p);
      MulMonotone(x + 1, y, p);
    }
  }

  lemma FrontDecides(x: nat, y: nat, p: nat, r: nat)
    requires x < y && r < p
    ensures x * p + r < y * p
  {
    Times(x, p);
    MulMonotone(x + 1, y, p);
  }

  /** A digit string that does not start with a zero is at least the power of its length. */
  lemma LeadingDigit(s: string)
    requires AllDigits(s) && s != "" && s[0] != '0'
    ensures Pow10(|s| - 1) <= Value(s)
  {
    ValueFront(s);
    MulMonotone(1, DigitValue(s[0]), Pow10(|s| - 1));
  }

  lemma {:induction false} Pow10Monotone(m: nat, n: nat)
    requires m <= n
    ensures Pow10(m) <= Pow10(n)
  {
    if m < n {
      Pow10Monotone(m, n - 1);
    }
  }

  /** Leading zeros removed, but never the last digit. */
  function StripLeadingZeros(s: string): (r: string)
    requires AllDigits(s)
    ensures AllDigits(r) && |r| <= |s| && (s != "" ==> r != "")
  {
    if |s| > 1 && s[0] == '0' then StripLeadingZeros(s[1..]) else s
  }

  lemma {:induction false} StripLeadingZerosValue(s: string)
    requires AllDigits(s)
    ensures Value(StripLeadingZeros(s)) == Value(s)
    ensures |StripLeadingZeros(s)| > 1 ==> StripLeadingZeros(s)[0] != '0'
  {
    if |s| > 1 && s[0] == '0' {
      ValueFront(s);
      StripLeadingZerosValue(s[1..]);
    }
  }

  /** A spelling without superfluous zeros is the spelling. */
  lemma {:induction false} CanonicalSpelling(s: string)
    requires AllDigits(s) && s != "" && (|s| > 1 ==> s[0] != '0')
    ensures s == Decimal(Value(s))
  {
    var init, last := s[..|s| - 1], s[|s| - 1];
    if |s| == 1 {
      assert Value(init) == 0;
    } else {
      CanonicalSpelling(init);
      LeadingDigit(init);
      assert Value(s) / 10 == Value(init) && Value(s) % 10 == DigitValue(last);
      assert s == init + [last];
    }
  }

  lemma SpellingOfStripped(s: string)
    requires AllDigits(s) && s != ""
    ensures StripLeadingZeros(s) == Decimal(Value(s))
  {
    StripLeadingZerosValue(s);
    CanonicalSpelling(StripLeadingZeros(s));
  }

  function Zeros(n: nat): (r: string)
    ensures |r| == n && AllDigits(r) && forall i :: 0 <= i < n ==> r[i] == '0'
  {
    seq(n, i => '0')
  }

  /** Zeros appended until the width is reached. */
  function PadEnd(s: string, width: nat): (r: string)
    ensures |r| == if |s| < width then width else |s|
    ensures AllDigits(s) ==> AllDigits(r)
  {
    if |s| < width then s + Zeros(width - |s|) else s
  }

  lemma PadEndValue(s: string, width: nat)
    requires AllDigits(s) && |s| <= width
    ensures Value(PadEnd(s, width)) == Value(s) * Pow10(width - |s|)
  {
    if |s| < width {
      var z := Zeros(width - |s|);
      ValueConcat(s, z);
      ValueZeros(z);
    } else {
      assert Value(s) * Pow10(0) == Value(s);
    }
  }

  /** Trailing zeros removed. */
  function TrimTrailingZeros(s: string): (r: string)
    requires AllDigits(s)
    ensures AllDigits(r) && |r| <= |s|
  {
    if s != "" && s[|s| - 1] == '0' then TrimTrailingZeros(s[..|s| - 1]) else s
  }

  lemma {:induction false} TrimTrailingZerosValue(s: string)
    requires AllDigits(s)
    ensures Value(s) == Value(TrimTrailingZeros(s)) * Pow10(|s| - |TrimTrailingZeros(s)|)
  {
    var t := TrimTrailingZeros(s);
    if s != "" && s[|s| - 1] == '0' {
      var init := s[..|s| - 1];
      TrimTrailingZerosValue(init);
      MulTen(Value(t), Pow10(|init| - |t|));
    } else {
      assert Value(t) * Pow10(0) == Value(t);
    }
  }

  /** How long the spelling of a positive number is. */
  lemma SpellingLength(n: nat, k: nat)
    requires n > 0
    ensures |Decimal(n)| <= k <==> n < Pow10(k)
  {
    var s := Decimal(n);
    DecimalValue(n);
    ValueBound(s);
    LeadingDigit(s);
    if |s| <= k {
      Pow10Monotone(|s|, k);
    } else {
      Pow10Monotone(k, |s| - 1);
    }
  }
}
