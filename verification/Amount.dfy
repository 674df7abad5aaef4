/**
 Base units to whole-coin decimals and back (crates/dig-app-core/src/amount.rs): the one formatter and
 the one parser every money surface goes through.
 */
module Amount {
  import opened Arithmetic
  import opened Wrappers
  import opened Decimal
  import opened Text

  const XCH_DECIMALS := 12
  const CAT_DECIMALS := 3
  const U32_RANGE := 0x1_0000_0000
  const U64_MAX := 0xFFFF_FFFF_FFFF_FFFF
  const U128_MAX := 0xFFFF_FFFF_FFFF_FFFF_FFFF_FFFF_FFFF_FFFF

  /** Native Chia, $DIG, or a CAT known only by its asset id. */
  datatype Asset = Xch | Dig | Cat(id: string)

  datatype Problem =
    | Empty
    | NotANumber
    | TooManyDecimals(allowed: nat)
    | TooLarge
    | PrecisionUnknown

  function Decimals(asset: Asset): Option<nat> {
    match asset
    case Xch => Some(XCH_DECIMALS)
    case Dig => Some(CAT_DECIMALS)
    case Cat(_) => None
  }

  /** The places a typed amount is scaled by: a token of unknown precision is typed in base units. */
  function Places(asset: Asset): nat {
    if Decimals(asset).Some? then Decimals(asset).value else 0
  }

  // ---------------------------------------------------------------- formatting

  function FormatUnits(units: nat, decimals: nat): string {
    var (whole, fraction) := DivMod(units, Pow10(decimals));
    if fraction == 0 then Numeral(whole)
    else Numeral(whole) + "." + TrimZeros(Padded(fraction, decimals))
  }

  function FormatAssetAmount(asset: Asset, units: nat): Option<string> {
    var decimals :- Decimals(asset);
    Some(FormatUnits(units, decimals))
  }

  /** The first and last six characters of an id longer than that. */
  function ShortAssetId(id: string): string {
    if |id| <= 12 then id else id[..6] + ['\U{2026}'] + id[|id| - 6..]
  }

  function Ticker(asset: Asset): string {
    match asset
    case Xch => "XCH"
    case Dig => "$DIG"
    case Cat(id) => ShortAssetId(id)
  }

  function AmountWithUnit(asset: Asset, units: nat): string {
    match FormatAssetAmount(asset, units)
    case Some(figure) => figure + " " + Ticker(asset)
    case None => Numeral(units) + " base units of " + Ticker(asset)
  }

  // ---------------------------------------------------------------- parsing

  predicate IsDigits(text: string) {
    text != [] && AllDigits(text)
  }

  /** `str::parse::<u128>` on a run of digits. */
  function ParseU128(digits: string): Option<nat> {
    if Value(digits) <= U128_MAX then Some(Value(digits)) else None
  }

  /** `as u32`. */
  function CastU32(n: nat): nat {
    n % U32_RANGE
  }

  /** What an unchecked `u128` operation leaves of its result. */
  function WrapU128(n: nat): nat {
    n % (U128_MAX + 1)
  }

  function ParseAssetAmount(asset: Asset, text: string): Result<nat, Problem> {
    var typed := Trim(text);
    if typed == [] then Err(Empty) else
    var split := SplitOnce(typed, '.');
    var whole := if split.Some? then split.value.0 else typed;
    var fraction := if split.Some? then split.value.1 else "";
    if !IsDigits(whole) || ('.' in typed && !IsDigits(fraction)) then Err(NotANumber)
    else if fraction != [] && Decimals(asset).None? then Err(PrecisionUnknown)
    else ScaledAmount(Places(asset), whole, fraction)
  }

  /**
   The arithmetic, with the machine's widths: the fraction's length is cast to `u32`, its product is an
   unchecked `u128` multiplication, and the sum is checked.
   */
  function ScaledAmount(decimals: nat, whole: string, fraction: string): Result<nat, Problem> {
    var length := CastU32(|fraction|);
    if length > decimals then Err(TooManyDecimals(decimals)) else
    match ParseU128(whole)
    case None => Err(TooLarge)
    case Some(wholeValue) =>
      if fraction != [] && ParseU128(fraction).None? then Err(TooLarge)
      else
        var scaled := if fraction == [] then 0 else WrapU128(Value(fraction) * Pow10(decimals - length));
        CheckedSum(wholeValue * Pow10(decimals), scaled)
  }

  /** `checked_mul`, `checked_add` and the narrowing to `u64`, each refusing what does not fit. */
  function CheckedSum(product: nat, scaled: nat): Result<nat, Problem> {
    if product > U128_MAX || product + scaled > U128_MAX || product + scaled > U64_MAX then Err(TooLarge)
    else Ok(product + scaled)
  }

  // ---------------------------------------------------------------- what a text means

  /** `text` is digits, or digits, a point and digits. */
  ghost predicate WellFormed(text: string, whole: string, fraction: string) {
    && IsDigits(whole)
    && (fraction == [] || IsDigits(fraction))
    && text == if fraction == [] then whole else whole + "." + fraction
  }

  /** `units` base units is exactly the decimal `whole.fraction`, scaled by `places` places. */
  ghost predicate Denotes(whole: string, fraction: string, places: nat, units: nat) {
    units * Pow10(|fraction|) == Value(whole + fraction) * Pow10(places)
  }

  /** The answer the parser owes for `text`: a number exactly on its value, each refusal on its own condition. */
  ghost predicate Owed(asset: Asset, text: string, answer: Result<nat, Problem>) {
    var typed, places := Trim(text), Places(asset);
    match answer
    case Ok(units) =>
      units <= U64_MAX && exists w, f ::
        WellFormed(typed, w, f) && (f != [] ==> Decimals(asset).Some?) && |f| <= places && Denotes(w, f, places, units)
    case Err(Empty) => typed == []
    case Err(NotANumber) => typed != [] && !exists w, f :: WellFormed(typed, w, f)
    case Err(PrecisionUnknown) => Decimals(asset).None? && exists w, f :: WellFormed(typed, w, f) && f != []
    case Err(TooManyDecimals(allowed)) =>
      allowed == places && Decimals(asset).Some? && exists w, f :: WellFormed(typed, w, f) && |f| > places
    case Err(TooLarge) =>
      exists w, f ::
        && WellFormed(typed, w, f) && (f != [] ==> Decimals(asset).Some?) && |f| <= places
        && Value(w + f) * Pow10(places) > U64_MAX * Pow10(|f|)
  }

  /** A fraction too long for the asset whose length, cut to 32 bits, looks short enough. */
  ghost predicate LengthWraps(asset: Asset, text: string) {
    Decimals(asset).Some? && exists w, f ::
      WellFormed(Trim(text), w, f) && |f| > Places(asset) && |f| % 0x1_0000_0000 <= Places(asset)
  }

  lemma WellFormedUnique(text: string, w1: string, f1: string, w2: string, f2: string)
    requires WellFormed(text, w1, f1) && WellFormed(text, w2, f2)
    ensures w1 == w2 && f1 == f2
  {
    if f1 != [] {
      SplitOnceAt(w1, '.', f1);
    }
    if f2 != [] {
      SplitOnceAt(w2, '.', f2);
    }
    SplitOnceExact(text, '.');
  }

  /** The scanner finds the parts of a well-formed text, and only a well-formed text has any. */
  lemma SplitFindsParts(typed: string)
    requires typed != []
    ensures var split := SplitOnce(typed, '.');
            var w := if split.Some? then split.value.0 else typed;
            var f := if split.Some? then split.value.1 else "";
            if !IsDigits(w) || ('.' in typed && !IsDigits(f)) then !exists w', f' :: WellFormed(typed, w', f')
            else WellFormed(typed, w, f)
  {
    SplitOnceExact(typed, '.');
    forall w', f' | WellFormed(typed, w', f') && f' != []
      ensures SplitOnce(typed, '.') == Some((w', f'))
    {
      SplitOnceAt(w', '.', f');
    }
    if w', f' :| WellFormed(typed, w', f') && f' == [] {
      assert '.' !in typed;
    }
  }

  // Products are grouped by hand: the proofs below only ever regroup and cancel.
  lemma Regroup(a: nat, b: nat, c: nat)
    ensures a * b * c == a * c * b
  {
  }

  lemma Cancel(a: nat, b: nat, c: nat)
    requires c > 0
    ensures a * c == b * c <==> a == b
    ensures a * c > b * c <==> a > b
  {
    if a > b { assert a * c == b * c + (a - b) * c; }
    if b > a { assert b * c == a * c + (b - a) * c; }
  }

  /** The parser's sum is the number the text denotes, scaled. */
  lemma SumDenotes(whole: string, fraction: string, places: nat)
    requires |fraction| <= places
    ensures Denotes(whole, fraction, places,
                    Value(whole) * Pow10(places) + Value(fraction) * Pow10(places - |fraction|))
  {
    var k, rest := Pow10(|fraction|), Pow10(places - |fraction|);
    var w, f := Value(whole), Value(fraction);
    ValueAppend(whole, fraction);
    Pow10Add(places - |fraction|, |fraction|);
    calc {
      (w * Pow10(places) + f * rest) * k;
      { Distribute(w * Pow10(places), f * rest, k); }
      w * Pow10(places) * k + f * rest * k;
      { Regroup(w, Pow10(places), k); MulAssoc(f, rest, k); }
      w * k * Pow10(places) + f * Pow10(places);
      { Distribute(w * k, f, Pow10(places)); }
      (w * k + f) * Pow10(places);
    }
  }

  /** Within the asset's places no unchecked step can leave 128 bits. */
  lemma ScaledFractionFits(fraction: string, places: nat)
    requires |fraction| <= places <= XCH_DECIMALS
    ensures Value(fraction) <= U128_MAX
    ensures Value(fraction) * Pow10(places - |fraction|) < Pow10(places) <= U128_MAX
  {
    ValueBound(fraction);
    Pow10Add(|fraction|, places - |fraction|);
    Cancel(Pow10(|fraction|), Value(fraction), Pow10(places - |fraction|));
    Pow10Increasing(|fraction|, places);
    Pow10Increasing(places, XCH_DECIMALS);
    assert Pow10(XCH_DECIMALS) == 1_000_000_000_000;
  }

  lemma {:induction false} Pow10Increasing(a: nat, b: nat)
    requires a <= b
    ensures Pow10(a) <= Pow10(b)
  {
    if a < b {
      Pow10Increasing(a, b - 1);
    }
  }

  /** On parts within the asset's places the arithmetic is exact, and refuses just what exceeds 64 bits. */
  lemma ScaledExact(places: nat, w: string, f: string)
    requires |f| <= places <= XCH_DECIMALS
    ensures var units := Value(w) * Pow10(places) + Value(f) * Pow10(places - |f|);
            ScaledAmount(places, w, f) == if units <= U64_MAX then Ok(units) else Err(TooLarge)
  {
    hide ScaledAmount, Value, Pow10;
    ScaledSteps(places, w, f);
    ProductAtLeast(Value(w), Pow10(places));
  }

  lemma ScaledSteps(places: nat, w: string, f: string)
    requires |f| <= places <= XCH_DECIMALS
    ensures ScaledAmount(places, w, f)
         == if Value(w) > U128_MAX then Err(TooLarge)
            else CheckedSum(Value(w) * Pow10(places), Value(f) * Pow10(places - |f|))
  {
    hide Value, Pow10, CheckedSum, CastU32, WrapU128;
    NoDigitsNoValue(f);
    ScaledFractionFits(f, places);
    CastFits(|f|);
    WrapFits(Value(f) * Pow10(places - |f|));
  }

  lemma CastFits(n: nat)
    requires n < U32_RANGE
    ensures CastU32(n) == n
  {
  }

  lemma WrapFits(n: nat)
    requires n <= U128_MAX
    ensures WrapU128(n) == n
  {
  }

  lemma NoDigitsNoValue(f: string)
    ensures f == [] ==> Value(f) == 0
  {
  }

  lemma ProductAtLeast(a: nat, b: nat)
    requires b > 0
    ensures a * b >= a
  {
  }

  /** Too large is too large on either side of the scaling. */
  lemma TooLargeScales(places: nat, w: string, f: string)
    requires |f| <= places
    ensures Value(w) * Pow10(places) + Value(f) * Pow10(places - |f|) > U64_MAX
       <==> Value(w + f) * Pow10(places) > U64_MAX * Pow10(|f|)
  {
    SumDenotes(w, f, places);
    Cancel(Value(w) * Pow10(places) + Value(f) * Pow10(places - |f|), U64_MAX, Pow10(|f|));
  }

  /**
   The parser is total and exact on every text whatever, in every asset, except the one family its
   32-bit length cast lets through: a fraction longer than the asset's places whose length wraps to
   one that is not. On that family, and no other, the answer is not the one owed.
   */
  lemma ParseIsExact(asset: Asset, text: string)
    ensures Owed(asset, text, ParseAssetAmount(asset, text)) <==> !LengthWraps(asset, text)
  {
    var typed, places := Trim(text), Places(asset);
    if typed != [] {
      SplitFindsParts(typed);
      var split := SplitOnce(typed, '.');
      var w := if split.Some? then split.value.0 else typed;
      var f := if split.Some? then split.value.1 else "";
      if WellFormed(typed, w, f) && (f == [] || Decimals(asset).Some?) {
        SplitOnceExact(typed, '.');
        OwedOnParts(asset, text, w, f);
      }
    }
  }

  lemma PartsScaled(asset: Asset, text: string, w: string, f: string)
    requires WellFormed(Trim(text), w, f) && (f == "" || Decimals(asset).Some?)
    ensures ParseAssetAmount(asset, text) == ScaledAmount(Places(asset), w, f)
  {
    hide Trim, Value, ScaledAmount;
    SplitFindsParts(Trim(text));
    SplitOnceExact(Trim(text), '.');
    if f != "" {
      SplitOnceAt(w, '.', f);
    }
  }

  /**
   What a fraction whose length passes the cast is read as, however long it is: its number scaled by the places
   the cast length leaves, cut to 128 bits, and refused only past 128 bits by itself or past 64 in all.
   */
  lemma CastLengthExactly(asset: Asset, text: string, w: string, f: string)
    requires WellFormed(Trim(text), w, f) && f != "" && Decimals(asset).Some? && |f| % 0x1_0000_0000 <= Places(asset)
    ensures var scaled := Value(f) * Pow10(Places(asset) - |f| % 0x1_0000_0000) % 0x1_0000_0000_0000_0000_0000_0000_0000_0000;
            var units := Value(w) * Pow10(Places(asset)) + scaled;
            ParseAssetAmount(asset, text)
              == if Value(f) < 0x1_0000_0000_0000_0000_0000_0000_0000_0000 && units < 0x1_0000_0000_0000_0000 then Ok(units)
                 else Err(TooLarge)
  {
    hide Trim, Value, Pow10, WellFormed, ParseAssetAmount;
    PartsScaled(asset, text, w, f);
    ProductAtLeast(Value(w), Pow10(Places(asset)));
  }

  lemma OwedOnParts(asset: Asset, text: string, w: string, f: string)
    requires WellFormed(Trim(text), w, f) && (f == [] || Decimals(asset).Some?)
    ensures Owed(asset, text, ScaledAmount(Places(asset), w, f)) <==> !LengthWraps(asset, text)
  {
    hide Trim, Value, Pow10, WellFormed;
    var typed, places := Trim(text), Places(asset);
    forall w', f' | WellFormed(typed, w', f') ensures w' == w && f' == f {
      WellFormedUnique(typed, w', f', w, f);
    }
    if |f| <= places {
      ScaledExact(places, w, f);
      SumDenotes(w, f, places);
      TooLargeScales(places, w, f);
    }
  }

  /** A text under 2^32 characters gets the answer owed. */
  lemma ParseIsExactOnShortText(asset: Asset, text: string)
    requires |text| < U32_RANGE
    ensures Owed(asset, text, ParseAssetAmount(asset, text))
  {
    hide Owed, ParseAssetAmount, Trim, Value, Pow10;
    ParseIsExact(asset, text);
    TrimNoLonger(text);
    forall w, f | WellFormed(Trim(text), w, f) ensures CastU32(|f|) == |f| {
      assert |f| <= |Trim(text)|;
    }
  }

  lemma {:induction false} TrimNoLonger(s: string)
    ensures |Trim(s)| <= |s|
  {
    TrimStartSuffix(s);
    TrimEndNoLonger(TrimStart(s));
  }

  lemma {:induction false} TrimEndNoLonger(s: string)
    ensures |TrimEnd(s)| <= |s|
  {
    if s != [] && IsWhitespace(s[|s| - 1]) {
      TrimEndNoLonger(s[..|s| - 1]);
    }
  }

  lemma WrappedText(zeros: string)
    requires IsDigits(zeros)
    ensures var text := "0." + zeros;
            && Trim(text) == text && text != [] && '.' in text
            && SplitOnce(text, '.') == Some(("0", zeros)) && WellFormed(text, "0", zeros)
  {
    hide SplitOnce, TrimStart, TrimEnd;
    var text := "0." + zeros;
    assert text == "0" + ['.'] + zeros && text[1] == '.';
    assert text[0] == '0' && text[|text| - 1] == zeros[|zeros| - 1];
    TrimNothing(text);
    SplitOnceAt("0", '.', zeros);
  }

  lemma ZeroScales(zeros: string)
    requires Value(zeros) == 0 && CastU32(|zeros|) <= XCH_DECIMALS
    ensures ScaledAmount(XCH_DECIMALS, "0", zeros) == Ok(0)
  {
    assert Value("0") == 0;
    hide Value, Pow10;
  }

  /** The family is inhabited: 2^32 zeros after a point read as 0 XCH instead of being refused. */
  lemma WrappedLengthIsAccepted()
    ensures ParseAssetAmount(Xch, "0." + Zeros(U32_RANGE)) == Ok(0)
    ensures Owed(Xch, "0." + Zeros(U32_RANGE), Err(TooManyDecimals(XCH_DECIMALS)))
  {
    hide Trim, SplitOnce, Value, Pow10, ScaledAmount, WellFormed;
    var zeros := Zeros(U32_RANGE);
    LeadingZeros(U32_RANGE, "");
    assert zeros + "" == zeros;
    NoDigitsNoValue("");
    WrappedText(zeros);
    ZeroScales(zeros);
  }

  lemma OneDenoted(w: string, f: string, places: nat, m: nat, n: nat)
    requires Denotes(w, f, places, m)
    ensures Denotes(w, f, places, n) ==> m == n
    ensures m <= U64_MAX ==> !(Value(w + f) * Pow10(places) > U64_MAX * Pow10(|f|))
  {
    hide Value, Pow10;
    Cancel(m, n, Pow10(|f|));
    Cancel(m, U64_MAX, Pow10(|f|));
  }

  /** At most one answer is owed for a text, so exactness pins the parser down. */
  lemma OwedUnique(asset: Asset, text: string, r: Result<nat, Problem>, s: Result<nat, Problem>)
    requires Owed(asset, text, r) && Owed(asset, text, s)
    ensures r == s
  {
    hide Trim, Value, Pow10, WellFormed, Denotes;
    var typed, places := Trim(text), Places(asset);
    forall w, f | WellFormed(typed, w, f) ensures typed != [] {
      WellFormedTrims(typed, w, f);
    }
    if exists w, f :: WellFormed(typed, w, f) {
      var w, f :| WellFormed(typed, w, f);
      forall w', f' | WellFormed(typed, w', f') ensures w' == w && f' == f {
        WellFormedUnique(typed, w', f', w, f);
      }
      if r.Ok? { OneDenoted(w, f, places, r.value, if s.Ok? then s.value else 0); }
      if s.Ok? { OneDenoted(w, f, places, s.value, if r.Ok? then r.value else 0); }
    }
  }

  // ---------------------------------------------------------------- the two are inverse

  /** No superfluous leading zero, no trailing fractional zero, no bare point, at most `places` places. */
  ghost predicate Canonical(text: string, places: nat) {
    exists w, f :: CanonicalParts(text, places, w, f)
  }

  ghost predicate CanonicalParts(text: string, places: nat, w: string, f: string) {
    WellFormed(text, w, f) && IsNumeral(w) && |f| <= places && (f != [] ==> f[|f| - 1] != '0')
  }

  /** What the formatter writes: the whole part's numeral and the fraction's digits, losing nothing. */
  lemma FormatParts(units: nat, decimals: nat) returns (w: string, f: string)
    ensures CanonicalParts(FormatUnits(units, decimals), decimals, w, f)
    ensures Value(w) * Pow10(decimals) + Value(f) * Pow10(decimals - |f|) == units
  {
    hide Numeral, Value, Pow10, Padded, TrimZeros;
    var (whole, fraction) := DivMod(units, Pow10(decimals));
    w, f := Numeral(whole), "";
    ValueOfNumeral(whole);
    if fraction != 0 {
      f := TrimZeros(Padded(fraction, decimals));
      FractionParts(fraction, decimals);
    } else {
      NoDigitsNoValue(f);
    }
  }

  lemma FractionParts(fraction: nat, decimals: nat)
    requires 0 < fraction < Pow10(decimals)
    ensures var f := TrimZeros(Padded(fraction, decimals));
            && f != [] && |f| <= decimals && AllDigits(f) && f[|f| - 1] != '0'
            && Value(f) * Pow10(decimals - |f|) == fraction
  {
    SomePlaces(fraction, decimals);
    hide Numeral, Value, Pow10, Padded, TrimZeros;
    var padded := Padded(fraction, decimals);
    var f := TrimZeros(padded);
    PaddedExact(fraction, decimals);
    TrimZerosExact(padded);
    NoDigitsNoValue(f);
    forall i | 0 <= i < |f| ensures IsDigit(f[i]) {
      assert f[i] == padded[i];
    }
  }

  lemma SomePlaces(fraction: nat, decimals: nat)
    requires 0 < fraction < Pow10(decimals)
    ensures decimals > 0
  {
  }

  /** The rendered text is canonical and denotes exactly the amount: nothing is rounded either way. */
  lemma FormatIsExactAndCanonical(units: nat, decimals: nat)
    ensures Canonical(FormatUnits(units, decimals), decimals)
    ensures exists w, f :: WellFormed(FormatUnits(units, decimals), w, f) && Denotes(w, f, decimals, units)
  {
    hide FormatUnits, Value, Pow10, WellFormed, IsNumeral, Denotes;
    var w, f := FormatParts(units, decimals);
    SumDenotes(w, f, decimals);
  }

  lemma WellFormedTrims(text: string, w: string, f: string)
    requires WellFormed(text, w, f)
    ensures text != [] && Trim(text) == text
  {
    TrimNothing(text);
  }

  /** Within an asset's places, parsing is reading off the parts. */
  lemma ParseOfParts(asset: Asset, text: string, w: string, f: string)
    requires WellFormed(text, w, f) && |f| <= Places(asset)
    ensures ParseAssetAmount(asset, text) == ScaledAmount(Places(asset), w, f)
  {
    WellFormedTrims(text, w, f);
    PartsScaled(asset, text, w, f);
  }

  /** A figure the app shows reads back as the base units it was made from, for every amount. */
  lemma ParseOfFormat(asset: Asset, units: nat)
    requires units <= U64_MAX && Decimals(asset).Some?
    ensures ParseAssetAmount(asset, FormatUnits(units, Places(asset))) == Ok(units)
  {
    hide FormatUnits, ParseAssetAmount, ScaledAmount, WellFormed, Value, Pow10;
    var w, f := FormatParts(units, Places(asset));
    ParseOfParts(asset, FormatUnits(units, Places(asset)), w, f);
    ScaledExact(Places(asset), w, f);
  }

  /** For a token of unknown precision the bare integer is the figure, and reads back as itself. */
  lemma ParseOfBaseUnits(id: string, units: nat)
    requires units <= U64_MAX
    ensures ParseAssetAmount(Cat(id), Numeral(units)) == Ok(units)
  {
    ValueOfNumeral(units);
    ParseOfParts(Cat(id), Numeral(units), Numeral(units), "");
    ScaledExact(0, Numeral(units), "");
  }

  lemma FractionUnique(f: string, g: string, places: nat)
    requires |f| <= places && |g| <= places && AllDigits(f) && AllDigits(g)
    requires f != [] ==> f[|f| - 1] != '0'
    requires g != [] ==> g[|g| - 1] != '0'
    requires Value(f) * Pow10(places - |f|) == Value(g) * Pow10(places - |g|)
    ensures f == g
  {
    hide Value, Pow10, TrimZeros;
    var x, y := f + Zeros(places - |f|), g + Zeros(places - |g|);
    DigitsAppend(f, Zeros(places - |f|));
    DigitsAppend(g, Zeros(places - |g|));
    TrailingZeros(f, places - |f|);
    TrailingZeros(g, places - |g|);
    ValueInjective(x, y);
    TrimZerosOfPadded(f, places - |f|);
    TrimZerosOfPadded(g, places - |g|);
  }

  /** Two canonical texts that read as the same amount are the same text. */
  lemma CanonicalUnique(places: nat, w: string, f: string, v: string, g: string)
    requires IsNumeral(w) && IsNumeral(v) && |f| <= places && |g| <= places && AllDigits(f) && AllDigits(g)
    requires f != [] ==> f[|f| - 1] != '0'
    requires g != [] ==> g[|g| - 1] != '0'
    requires Value(w) * Pow10(places) + Value(f) * Pow10(places - |f|)
          == Value(v) * Pow10(places) + Value(g) * Pow10(places - |g|)
    ensures w == v && f == g
  {
    FractionBelowWhole(f, places);
    FractionBelowWhole(g, places);
    DivModUnique(Value(w), Value(f) * Pow10(places - |f|), Value(v), Value(g) * Pow10(places - |g|), Pow10(places));
    NumeralOfValue(w);
    NumeralOfValue(v);
    FractionUnique(f, g, places);
  }

  lemma FractionBelowWhole(f: string, places: nat)
    requires |f| <= places
    ensures Value(f) * Pow10(places - |f|) < Pow10(places)
  {
    ValueBound(f);
    Pow10Add(|f|, places - |f|);
    Cancel(Pow10(|f|), Value(f), Pow10(places - |f|));
  }

  lemma ParsedFits(asset: Asset, text: string, units: nat)
    requires ParseAssetAmount(asset, text) == Ok(units)
    ensures units <= U64_MAX
  {
    hide Trim, SplitOnce, Value, Pow10;
  }

  /**
   Formatting is the normal form of the accepted texts of an asset: the amount a text reads as formats
   to a canonical text reading as that amount, and a canonical text formats to itself.
   */
  lemma FormatIsNormalForm(asset: Asset, text: string, units: nat)
    requires Decimals(asset).Some? && ParseAssetAmount(asset, text) == Ok(units)
    ensures var normal := FormatUnits(units, Places(asset));
            && Canonical(normal, Places(asset)) && ParseAssetAmount(asset, normal) == Ok(units)
            && (Canonical(text, Places(asset)) ==> normal == text)
  {
    ParsedFits(asset, text, units);
    hide FormatUnits, ParseAssetAmount, ScaledAmount, Value, Pow10, AllDigits;
    var places := Places(asset);
    var v, g := FormatParts(units, places);
    ParseOfFormat(asset, units);
    if Canonical(text, places) {
      var w, f :| CanonicalParts(text, places, w, f);
      ParseOfParts(asset, text, w, f);
      ScaledExact(places, w, f);
      CanonicalUnique(places, w, f, v, g);
    }
  }

  // ---------------------------------------------------------------- the phrase

  lemma FigureHasNoSpace(asset: Asset, units: nat)
    ensures var figure := if Decimals(asset).Some? then FormatUnits(units, Places(asset)) else Numeral(units);
            ' ' !in figure && AmountWithUnit(asset, units) == figure + [' '] +
              (if Decimals(asset).Some? then Ticker(asset) else "base units of " + Ticker(asset))
  {
    hide FormatUnits, Numeral, Value, Pow10, Ticker;
    if Decimals(asset).Some? {
      var w, f := FormatParts(units, Places(asset));
    } else {
      assert " base units of " == [' '] + "base units of ";
    }
  }

  /** Two amounts of one asset never read as the same phrase. */
  lemma PhraseInjective(asset: Asset, m: nat, n: nat)
    requires m <= U64_MAX && n <= U64_MAX && AmountWithUnit(asset, m) == AmountWithUnit(asset, n)
    ensures m == n
  {
    FigureHasNoSpace(asset, m);
    FigureHasNoSpace(asset, n);
    var after := if Decimals(asset).Some? then Ticker(asset) else "base units of " + Ticker(asset);
    if Decimals(asset).Some? {
      var a, b := FormatUnits(m, Places(asset)), FormatUnits(n, Places(asset));
      SplitOnceAt(a, ' ', after);
      SplitOnceAt(b, ' ', after);
      ParseOfFormat(asset, m);
      ParseOfFormat(asset, n);
    } else {
      SplitOnceAt(Numeral(m), ' ', after);
      SplitOnceAt(Numeral(n), ' ', after);
      NumeralInjective(m, n);
    }
  }

  // ---------------------------------------------------------------- the assets' own units

  /** What one whole coin is in base units: a million million mojos, a thousand $DIG units, or itself. */
  function WholeCoin(asset: Asset): nat {
    match asset
    case Xch => 1_000_000_000_000
    case Dig => 1_000
    case Cat(_) => 1
  }

  lemma WholeCoinIsItsPlaces(asset: Asset)
    ensures Pow10(Places(asset)) == WholeCoin(asset)
  {
    assert Pow10(3) == 1_000;
    assert Pow10(12) == 1_000_000_000_000;
  }

  /** So many whole coins are read as just so many base units, up to the largest 64 bits hold. */
  lemma WholeCoinsRead(asset: Asset, n: nat)
    ensures ParseAssetAmount(asset, Numeral(n)) ==
            if n * WholeCoin(asset) <= 18_446_744_073_709_551_615 then Ok(n * WholeCoin(asset)) else Err(TooLarge)
  {
    WholeCoinIsItsPlaces(asset);
    ValueOfNumeral(n);
    NoDigitsNoValue("");
    hide Numeral, Value, Pow10, ScaledAmount, ParseAssetAmount;
    ParseOfParts(asset, Numeral(n), Numeral(n), "");
    ScaledExact(Places(asset), Numeral(n), "");
  }

  /** And shown as that many coins again, under the asset's own name. */
  lemma WholeCoinsShown(asset: Asset, n: nat)
    ensures AmountWithUnit(asset, n * WholeCoin(asset)) == Numeral(n) + match asset
              case Xch => " XCH"
              case Dig => " $DIG"
              case Cat(id) => " base units of " + ShortAssetId(id)
  {
    WholeCoinIsItsPlaces(asset);
    hide Numeral, Pow10, Padded, TrimZeros, ShortAssetId;
    var (whole, fraction) := DivMod(n * WholeCoin(asset), WholeCoin(asset));
    DivModUnique(whole, fraction, n, 0, WholeCoin(asset));
    assert " " + "XCH" == " XCH" && " " + "$DIG" == " $DIG";
    assert Numeral(n) + " " + "XCH" == Numeral(n) + " XCH" && Numeral(n) + " " + "$DIG" == Numeral(n) + " $DIG";
    assert asset.Cat? ==> Numeral(n) + " base units of " + ShortAssetId(asset.id) == Numeral(n) + (" base units of " + ShortAssetId(asset.id));
  }

  /** A single base unit is shown to its last place. */
  lemma SmallestUnitShown()
    ensures FormatAssetAmount(Xch, 1) == Some("0.000000000001") && FormatAssetAmount(Dig, 1) == Some("0.001")
  {
    hide *;
    OneUnit(Xch);
    OneUnit(Dig);
    PlacesKnown();
    Spelled(Zeros(11), Zeros(2));
  }

  lemma PlacesKnown()
    ensures Places(Xch) == 12 && Places(Dig) == 3
  {
  }

  lemma Spelled(eleven: string, two: string)
    requires |eleven| == 11 && |two| == 2
    requires (forall i :: 0 <= i < 11 ==> eleven[i] == '0') && forall i :: 0 <= i < 2 ==> two[i] == '0'
    ensures "0." + eleven + "1" == "0.000000000001" && "0." + two + "1" == "0.001"
  {
  }

  lemma OneUnit(asset: Asset)
    requires !asset.Cat?
    ensures FormatAssetAmount(asset, 1) == Some("0." + Zeros(Places(asset) - 1) + "1")
  {
    WholeCoinIsItsPlaces(asset);
    assert Numeral(0) == "0" && Numeral(1) == "1" by {
      assert Numeral(0) == [DigitChar(0)] && Numeral(1) == [DigitChar(1)];
    }
    hide Numeral, Pow10, TrimZeros;
    var (whole, fraction) := DivMod(1, WholeCoin(asset));
    DivModUnique(whole, fraction, 0, 1, WholeCoin(asset));
    var padded := Zeros(Places(asset) - 1) + "1";
    assert Padded(1, Places(asset)) == padded;
    TrimZerosOfPadded(padded, 0);
    assert padded + Zeros(0) == padded;
    assert "0" + "." + padded == "0." + Zeros(Places(asset) - 1) + "1";
  }

  /** A long asset id is shown by its first and last six characters around an ellipsis; a short one in full. */
  lemma ShortIdExactly(id: string)
    ensures |id| <= 12 ==> ShortAssetId(id) == id
    ensures |id| > 12 ==>
              var short := ShortAssetId(id);
              |short| == 13 && short[..6] == id[..6] && short[6] == '\U{2026}' && short[7..] == id[|id| - 6..]
  {
  }
}
