/** Decimal numerals: what `to_string` and zero-padded formatting write and what `parse` reads back. */
module Decimal {
  import opened Arithmetic
  import opened Wrappers
  import opened Text

  predicate IsDigit(c: char) {
    '0' <= c <= '9'
  }

  predicate AllDigits(s: string) {
    forall i :: 0 <= i < |s| ==> IsDigit(s[i])
  }

  function DigitChar(d: nat): (c: char)
    requires d < 10
    ensures IsDigit(c) && DigitValue(c) == d
  {
    '0' + d as char
  }

  function DigitValue(c: char): (d: nat)
    ensures d < 10
  {
    if IsDigit(c) then c as int - '0' as int else 0
  }

  function Pow10(n: nat): (p: nat)
    ensures p >= 1
  {
    if n == 0 then 1 else 10 * Pow10(n - 1)
  }

  /** The number a run of digits denotes. */
  function Value(s: string): nat {
    if s == [] then 0 else Value(s[..|s| - 1]) * 10 + DigitValue(s[|s| - 1])
  }

  /** The numeral of `n` with no superfluous leading zero. */
  function Numeral(n: nat): (s: string)
    ensures s != [] && AllDigits(s)
    ensures s[0] == '0' ==> n == 0 && s == "0"
    decreases n
  {
    if n < 10 then [DigitChar(n)] else Numeral(n / 10) + [DigitChar(n % 10)]
  }

  predicate IsNumeral(s: string) {
    s != [] && AllDigits(s) && (s[0] == '0' ==> |s| == 1)
  }

  function Zeros(n: nat): (s: string)
    ensures |s| == n && forall i :: 0 <= i < n ==> s[i] == '0'
  {
    seq(n, _ => '0')
  }

  /** `{n:0width$}`: the numeral of `n`, with leading zeros up to `width` places. */
  function Padded(n: nat, width: nat): string {
    var s := Numeral(n);
    if |s| < width then Zeros(width - |s|) + s else s
  }

  /** `trim_end_matches('0')`. */
  function TrimZeros(s: string): string {
    TrimEndMatches(s, '0')
  }

  /** `parse` of an unsigned width below `limit`: an optional plus sign, then digits that denote less. */
  function ParseUnsigned(s: string, limit: nat): Option<nat> {
    var digits := if |s| > 1 && s[0] == '+' then s[1..] else s;
    if digits != [] && AllDigits(digits) && Value(digits) < limit then Some(Value(digits)) else None
  }

  /** What such a parse accepts. */
  lemma ParseUnsignedExactly(s: string, limit: nat, n: nat)
    ensures ParseUnsigned(s, limit) == Some(n) <==>
            exists digits :: (s == digits || s == "+" + digits) && digits != [] && AllDigits(digits) && Value(digits) == n < limit
  {
    hide Value;
    if s != [] && s[0] == '+' {
      assert s == "+" + s[1..];
    }
    forall digits | (s == digits || s == "+" + digits) && digits != [] && AllDigits(digits)
      ensures digits == if |s| > 1 && s[0] == '+' then s[1..] else s
    {
    }
  }

  /** The ten digits, read in order. */
  lemma DigitsCount()
    ensures Value("9876543210") == 9_876_543_210
  {
    hide Value;
    NothingCounts();
    ValueNext("", '9', "9");
    ValueNext("9", '8', "98");
    ValueNext("98", '7', "987");
    ValueNext("987", '6', "9876");
    ValueNext("9876", '5', "98765");
    ValueNext("98765", '4', "987654");
    ValueNext("987654", '3', "9876543");
    ValueNext("9876543", '2', "98765432");
    ValueNext("98765432", '1', "987654321");
    ValueNext("987654321", '0', "9876543210");
  }

  lemma NothingCounts()
    ensures Value("") == 0
  {
  }

  lemma ValueNext(s: string, c: char, longer: string)
    requires longer == s + [c]
    ensures Value(longer) == Value(s) * 10 + DigitValue(c)
  {
    ValueSnoc(s, c);
  }

  lemma ValueSnoc(s: string, c: char)
    ensures Value(s + [c]) == Value(s) * 10 + DigitValue(c)
  {
    assert (s + [c])[..|s|] == s;
  }

  /** Reading a numeral back gives the number it was written from. */
  lemma {:induction false} ValueOfNumeral(n: nat)
    ensures Value(Numeral(n)) == n
    decreases n
  {
    if n < 10 {
      ValueSnoc("", DigitChar(n));
      assert "" + [DigitChar(n)] == [DigitChar(n)];
    } else {
      ValueOfNumeral(n / 10);
      ValueSnoc(Numeral(n / 10), DigitChar(n % 10));
    }
  }

  /** A numeral without superfluous leading zeros is the one its value is written as. */
  lemma {:induction false} NumeralOfValue(s: string)
    requires IsNumeral(s)
    ensures Numeral(Value(s)) == s
  {
    var head, last := s[..|s| - 1], s[|s| - 1];
    assert s == head + [last];
    if head == [] {
      assert Value(s) == DigitValue(last);
    } else {
      NumeralOfValue(head);
      PositiveValue(head);
      assert Value(s) / 10 == Value(head) && Value(s) % 10 == DigitValue(last);
    }
  }

  lemma {:induction false} PositiveValue(s: string)
    requires s != [] && IsDigit(s[0]) && s[0] != '0'
    ensures Value(s) > 0
  {
    if |s| > 1 {
      PositiveValue(s[..|s| - 1]);
    }
  }

  lemma {:induction false} NumeralInjective(m: nat, n: nat)
    requires Numeral(m) == Numeral(n)
    ensures m == n
  {
    ValueOfNumeral(m);
    ValueOfNumeral(n);
  }

  lemma {:induction false} Pow10Add(a: nat, b: nat)
    ensures Pow10(a + b) == Pow10(a) * Pow10(b)
  {
    if a > 0 {
      Pow10Add(a - 1, b);
      MulAssoc(10, Pow10(a - 1), Pow10(b));
    }
  }

  /** Writing one run of digits after another scales the first by the length of the second. */
  lemma {:induction false} ValueAppend(s: string, t: string)
    ensures Value(s + t) == Value(s) * Pow10(|t|) + Value(t)
  {
    if t == [] {
      assert s + t == s;
    } else {
      var u, c := t[..|t| - 1], t[|t| - 1];
      assert s + t == (s + u) + [c];
      ValueAppend(s, u);
      ValueSnoc(s + u, c);
      Distribute(Value(s) * Pow10(|u|), Value(u), 10);
      MulAssoc(Value(s), Pow10(|u|), 10);
    }
  }

  lemma {:induction false} ValueBound(s: string)
    ensures Value(s) < Pow10(|s|)
  {
    if s != [] {
      ValueBound(s[..|s| - 1]);
    }
  }

  lemma {:induction false} LeadingZeros(n: nat, s: string)
    ensures Value(Zeros(n) + s) == Value(s)
  {
    if s != [] {
      LeadingZeros(n, s[..|s| - 1]);
      assert (Zeros(n) + s)[..n + |s| - 1] == Zeros(n) + s[..|s| - 1];
    } else if n > 0 {
      LeadingZeros(n - 1, s);
      assert (Zeros(n) + s)[..n - 1] == Zeros(n - 1) + s;
    }
  }

  lemma TrailingZeros(s: string, n: nat)
    ensures Value(s + Zeros(n)) == Value(s) * Pow10(n)
  {
    ValueAppend(s, Zeros(n));
    LeadingZeros(n, "");
    assert Zeros(n) + "" == Zeros(n);
  }

  lemma {:induction false} NumeralWidth(n: nat, width: nat)
    requires n < Pow10(width) && width > 0
    ensures |Numeral(n)| <= width
  {
    if n >= 10 {
      NumeralWidth(n / 10, width - 1);
    }
  }

  /** Zero-padding changes neither the value nor, below 10^width, the width. */
  lemma {:induction false} PaddedExact(n: nat, width: nat)
    requires n < Pow10(width) && width > 0
    ensures |Padded(n, width)| == width && AllDigits(Padded(n, width)) && Value(Padded(n, width)) == n
  {
    hide Numeral, Value, Pow10;
    NumeralWidth(n, width);
    ValueOfNumeral(n);
    LeadingZeros(width - |Numeral(n)|, Numeral(n));
    var zeros := Zeros(width - |Numeral(n)|);
    assert zeros + Numeral(n) == Padded(n, width) by {
      assert width == |Numeral(n)| ==> zeros == [];
    }
    DigitsAppend(zeros, Numeral(n));
  }

  lemma DigitsAppend(s: string, t: string)
    requires AllDigits(s) && AllDigits(t)
    ensures AllDigits(s + t)
  {
  }

  /** Two runs of digits of one width and one value are the same run. */
  lemma {:induction false} ValueInjective(s: string, t: string)
    requires AllDigits(s) && AllDigits(t) && |s| == |t| && Value(s) == Value(t)
    ensures s == t
  {
    if s != [] {
      var n := |s| - 1;
      DivModUnique(Value(s[..n]), DigitValue(s[n]), Value(t[..n]), DigitValue(t[n]), 10);
      ValueInjective(s[..n], t[..n]);
      assert s == s[..n] + [s[n]] && t == t[..n] + [t[n]];
    }
  }

  lemma ZerosSnoc(n: nat)
    ensures Zeros(n + 1) == Zeros(n) + ['0']
  {
  }

  /** What trimming trailing zeros keeps: a prefix of the digits that carries the whole value. */
  lemma {:induction false} TrimZerosExact(s: string)
    ensures var t := TrimZeros(s);
            && |t| <= |s| && s == t + Zeros(|s| - |t|)
            && (t != [] ==> t[|t| - 1] != '0')
            && Value(s) == Value(t) * Pow10(|s| - |t|)
  {
    TrimZerosShape(s);
    TrailingZeros(TrimZeros(s), |s| - |TrimZeros(s)|);
  }

  lemma {:induction false} TrimZerosShape(s: string)
    ensures var t := TrimZeros(s);
            |t| <= |s| && s == t + Zeros(|s| - |t|) && (t != [] ==> t[|t| - 1] != '0')
  {
    if s != [] && s[|s| - 1] == '0' {
      var u := s[..|s| - 1];
      TrimZerosShape(u);
      var t := TrimZeros(u);
      ZerosSnoc(|u| - |t|);
      assert s == u + ['0'] == t + Zeros(|s| - |t|);
    } else {
      assert s == s + Zeros(0);
    }
  }

  /** Trimming undoes appending zeros to a run that does not itself end in one. */
  lemma {:induction false} TrimZerosOfPadded(t: string, n: nat)
    requires t != [] ==> t[|t| - 1] != '0'
    ensures TrimZeros(t + Zeros(n)) == t
  {
    var s := t + Zeros(n);
    if n == 0 {
      assert s == t;
    } else {
      assert s[..|s| - 1] == t + Zeros(n - 1);
      TrimZerosOfPadded(t, n - 1);
    }
  }
}
