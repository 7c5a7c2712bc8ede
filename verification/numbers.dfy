/** Number rendering and the choice of decimal separator
    (rslib/i18n/src/lib.rs:327-422). */
module Numbers {
  import opened Wrappers
  import opened Strings
  import opened LangIds

  /** A Fluent number argument. Its value is given already rounded to
      hundredths, which is all of it that the two-decimal rendering keeps;
      `minimumFractionDigits` is the option of the same name. */
  datatype FluentNumber = FluentNumber(hundredths: int, minimumFractionDigits: Option<nat>)

  /** The argument values the model distinguishes: numbers and everything else. */
  datatype FluentValue = StringValue(text: string) | NumberValue(number: FluentNumber)

  function Abs(x: int): nat {
    if x < 0 then -x else x
  }

  /** The sign and integer part of the rendering: `-` for negative values,
      then the whole units in decimal. */
  function WholePart(hundredths: int): (r: string)
    ensures |r| > 0 && IsDigit(r[|r| - 1])
    ensures forall c :: !IsDigit(c) && c != '-' ==> c !in r
  {
    var digits := NatToDecimal(Abs(hundredths) / 100);
    if hundredths < 0 then
      assert forall c :: !IsDigit(c) && c != '-' ==> c !in ['-'] + digits by {
        forall c | !IsDigit(c) && c != '-' ensures c !in ['-'] + digits {
          NotInDigits(digits, c);
        }
      }
      ['-'] + digits
    else
      assert forall c :: !IsDigit(c) ==> c !in digits by {
        forall c | !IsDigit(c) ensures c !in digits {
          NotInDigits(digits, c);
        }
      }
      digits
  }

  /** `format!("{:.2}", value)`: the value with exactly two fraction digits. */
  function FixedTwo(hundredths: int): string {
    var cents := Abs(hundredths) % 100;
    WholePart(hundredths) + "." + [DigitChar(cents / 10), DigitChar(cents % 10)]
  }

  // ---------------------------------------------------------------------
  // The renderer as written and as corrected

  /** The two-decimal rendering with its trailing zeros trimmed (lib.rs:392-399). */
  function TrimmedFixedTwo(hundredths: int): string {
    TrimEndMatches(FixedTwo(hundredths), '0')
  }

  /** The padding step as written (lib.rs:402-409): `Failure` is a panic.
      The subtraction at lib.rs:405 is on `usize`, so a minimum below the
      number of fraction digits left after trimming underflows (a panic in
      a debug build; in a release build the wrapped count makes `repeat`
      panic on capacity overflow). */
  function PadAsWritten(trimmed: string, minimumFractionDigits: Option<nat>): Result<string, string> {
    match minimumFractionDigits
    case None => Success(trimmed)
    case Some(minfd) =>
      match Find(trimmed, '.')
      case None => Failure("expected . in formatted string")
      case Some(pos) =>
        var fracNum := |trimmed| - pos - 1;
        if minfd < fracNum then Failure("attempt to subtract with overflow")
        else
          var zerosNeeded := minfd - fracNum;
          Success(if zerosNeeded > 0 then trimmed + Repeat('0', zerosNeeded) else trimmed)
  }

  /** The padding step as evidently intended: zeros are added only when fewer
      fraction digits remain than the minimum. */
  function Pad(trimmed: string, minimumFractionDigits: Option<nat>): string {
    match minimumFractionDigits
    case None => trimmed
    case Some(minfd) =>
      match Find(trimmed, '.')
      case None => trimmed
      case Some(pos) =>
        var fracNum := |trimmed| - pos - 1;
        if minfd > fracNum then trimmed + Repeat('0', minfd - fracNum) else trimmed
  }

  /** The last steps (lib.rs:411-418): drop a dangling `.`, then swap in the
      alternative separator if there is one. */
  function Finish(val: string, altSeparator: Option<string>): string {
    var result := TrimEndMatches(val, '.');
    match altSeparator
    case Some(sep) => Replace(result, '.', sep)
    case None => result
  }

  /** `format_number_values` on a number, as written: `Failure` is a panic. */
  function FormatNumberAsWritten(number: FluentNumber, altSeparator: Option<string>): (r: Result<string, string>)
    ensures number.minimumFractionDigits.None? ==> r.Success?
    ensures r.Failure? ==> r.error in {"expected . in formatted string", "attempt to subtract with overflow"}
  {
    match PadAsWritten(TrimmedFixedTwo(number.hundredths), number.minimumFractionDigits)
    case Failure(e) => Failure(e)
    case Success(val) => Success(Finish(val, altSeparator))
  }

  /** `format_number_values` on a number, with the corrected padding. */
  function FormatNumber(number: FluentNumber, altSeparator: Option<string>): (r: string)
    ensures number.minimumFractionDigits.None? ==> Success(r) == FormatNumberAsWritten(number, altSeparator)
  {
    Finish(Pad(TrimmedFixedTwo(number.hundredths), number.minimumFractionDigits), altSeparator)
  }

  // ---------------------------------------------------------------------
  // An arithmetic description of the rendering

  /** The fraction digits that carry value: none, one or two. */
  function SignificantFraction(hundredths: int): (r: string)
    ensures |r| <= 2 && IsDigits(r)
    ensures |r| > 0 ==> r[|r| - 1] != '0'
  {
    var cents := Abs(hundredths) % 100;
    if cents == 0 then ""
    else if cents % 10 == 0 then [DigitChar(cents / 10)]
    else [DigitChar(cents / 10), DigitChar(cents % 10)]
  }

  /** The fraction digits printed: the significant ones, then zeros up to the minimum. */
  function FractionDigits(number: FluentNumber): string
  {
    var sig := SignificantFraction(number.hundredths);
    match number.minimumFractionDigits
    case Some(minfd) => if minfd > |sig| then sig + Repeat('0', minfd - |sig|) else sig
    case None => sig
  }

  /** The sign, the whole units, and when there are fraction digits, the
      separator followed by them. */
  function Rendered(number: FluentNumber, separator: string): string
  {
    var frac := FractionDigits(number);
    WholePart(number.hundredths) + (if |frac| == 0 then "" else separator + frac)
  }

  function SeparatorText(altSeparator: Option<string>): string {
    match altSeparator
    case Some(sep) => sep
    case None => "."
  }

  /** Trimming the zeros of the two-decimal rendering leaves the
      significant fraction digits after the `.`. */
  lemma TrimmedIsSignificant(hundredths: int)
    ensures TrimmedFixedTwo(hundredths) == WholePart(hundredths) + "." + SignificantFraction(hundredths)
  {
    var cents := Abs(hundredths) % 100;
    var two := [DigitChar(cents / 10), DigitChar(cents % 10)];
    var prefix := WholePart(hundredths) + ".";
    assert FixedTwo(hundredths) == prefix + two;
    TrimEndMatchesKeepsPrefix(prefix, two, '0');
    assert TrimEndMatches(two, '0') == SignificantFraction(hundredths) by {
      TrimTwoDigits(cents);
    }
  }

  lemma TrimTwoDigits(cents: nat)
    requires cents < 100
    ensures TrimEndMatches([DigitChar(cents / 10), DigitChar(cents % 10)], '0')
            == (if cents == 0 then "" else if cents % 10 == 0 then [DigitChar(cents / 10)]
                else [DigitChar(cents / 10), DigitChar(cents % 10)])
  {
    var two := [DigitChar(cents / 10), DigitChar(cents % 10)];
    if cents % 10 == 0 {
      assert two[1] == '0';
      assert two[..1] == [DigitChar(cents / 10)];
      if cents == 0 {
        assert two[..1][..0] == [];
      }
    }
  }

  lemma FractionDigitsAreDigits(number: FluentNumber)
    ensures IsDigits(FractionDigits(number))
    ensures FractionDigits(number)[..|SignificantFraction(number.hundredths)|] == SignificantFraction(number.hundredths)
    ensures AllZeros(FractionDigits(number), |SignificantFraction(number.hundredths)|)
  {
    var sig := SignificantFraction(number.hundredths);
    var frac := FractionDigits(number);
    if frac != sig {
      var zeros := Repeat('0', number.minimumFractionDigits.value - |sig|);
      assert frac == sig + zeros;
      forall i | 0 <= i < |frac| ensures IsDigit(frac[i]) && (i >= |sig| ==> frac[i] == '0') {
        if i >= |sig| {
          assert frac[i] == zeros[i - |sig|];
        }
      }
    }
  }

  /** The padding leaves the integer part, the `.` and the fraction digits to print. */
  lemma PaddedIsFractionDigits(number: FluentNumber)
    ensures Pad(TrimmedFixedTwo(number.hundredths), number.minimumFractionDigits)
            == WholePart(number.hundredths) + "." + FractionDigits(number)
  {
    TrimmedIsSignificant(number.hundredths);
    FindAfter(WholePart(number.hundredths), SignificantFraction(number.hundredths), '.');
  }

  /** The last steps put the separator between the whole part and a
      non-empty fraction, and drop it before an empty one. */
  lemma FinishIsRendered(whole: string, frac: string, altSeparator: Option<string>)
    requires |whole| > 0 && IsDigit(whole[|whole| - 1]) && '.' !in whole
    requires IsDigits(frac)
    ensures Finish(whole + "." + frac, altSeparator)
            == whole + (if |frac| == 0 then "" else SeparatorText(altSeparator) + frac)
  {
    NotInDigits(frac, '.');
    var val := whole + "." + frac;
    var result := TrimEndMatches(val, '.');
    DropDanglingDot(whole, frac);
    if |frac| == 0 {
      assert result == whole;
      match altSeparator
      case None =>
      case Some(sep) =>
        assert Replace(whole, '.', sep) == whole;
    } else {
      assert result == val;
      match altSeparator
      case None =>
        assert val == whole + ("." + frac);
      case Some(sep) =>
        ReplaceOneDot(whole, frac, sep);
        assert whole + sep + frac == whole + (sep + frac);
    }
  }

  lemma DropDanglingDot(whole: string, frac: string)
    requires |whole| > 0 && IsDigit(whole[|whole| - 1])
    requires IsDigits(frac)
    ensures TrimEndMatches(whole + "." + frac, '.') == if |frac| == 0 then whole else whole + "." + frac
  {
    var val := whole + "." + frac;
    if |frac| == 0 {
      assert val[..|val| - 1] == whole;
    } else {
      assert val[|val| - 1] == frac[|frac| - 1];
    }
  }

  lemma ReplaceOneDot(whole: string, frac: string, sep: string)
    requires '.' !in whole && '.' !in frac
    ensures Replace(whole + "." + frac, '.', sep) == whole + sep + frac
  {
    var tail := ['.'] + frac;
    assert whole + "." + frac == whole + tail;
    ReplaceConcat(whole, tail, '.', sep);
    ReplaceConcat(['.'], frac, '.', sep);
    ReplaceSingle('.', sep);
    assert whole + (sep + frac) == whole + sep + frac;
  }

  lemma ReplaceSingle(c: char, rep: string)
    ensures Replace([c], c, rep) == rep
  {
    assert [c][1..] == [];
    assert rep + [] == rep;
  }

  /** The string pipeline computes the arithmetic description. */
  lemma {:induction false} FormatNumberIsRendered(number: FluentNumber, altSeparator: Option<string>)
    ensures FormatNumber(number, altSeparator) == Rendered(number, SeparatorText(altSeparator))
  {
    PaddedIsFractionDigits(number);
    FractionDigitsAreDigits(number);
    FinishIsRendered(WholePart(number.hundredths), FractionDigits(number), altSeparator);
  }

  /** The renderer as written agrees with the corrected one whenever it does
      not panic, and it panics exactly when the minimum is below the count of
      significant fraction digits. For the finite values modelled here the
      two-decimal rendering always holds a `.`, so the `expect` at lib.rs:403
      never fires. */
  lemma {:induction false} AsWrittenPanicsOnlyOnUnderflow(number: FluentNumber, altSeparator: Option<string>)
    ensures var r := FormatNumberAsWritten(number, altSeparator);
      && (r.Success? ==> r.value == FormatNumber(number, altSeparator))
      && (r.Failure? <==> (number.minimumFractionDigits.Some?
                           && number.minimumFractionDigits.value < |SignificantFraction(number.hundredths)|))
      && r != Failure("expected . in formatted string")
  {
    TrimmedIsSignificant(number.hundredths);
    FindAfter(WholePart(number.hundredths), SignificantFraction(number.hundredths), '.');
  }

  /** The corrected renderer applied to Fluent values: numbers are rendered,
      anything else is left to Fluent's default (`None`). */
  function FormatNumberValues(val: FluentValue, altSeparator: Option<string>): (r: Option<string>)
    ensures r.Some? <==> val.NumberValue?
    ensures r.Some? ==> r.value == Rendered(val.number, SeparatorText(altSeparator))
  {
    match val
    case NumberValue(number) =>
      FormatNumberIsRendered(number, altSeparator);
      Some(FormatNumber(number, altSeparator))
    case StringValue(_) => None
  }

  // ---------------------------------------------------------------------
  // Properties of the rendering

  /** The shape of the output: it never ends with the separator, it has a
      separator exactly when there are fraction digits, and it has at most
      two fraction digits unless the minimum asks for more (exactly the
      minimum then); without a minimum the last fraction digit is not zero. */
  lemma RenderedShape(number: FluentNumber, sep: char)
    requires !IsDigit(sep) && sep != '-'
    ensures var s := Rendered(number, [sep]);
      && |s| > 0 && IsDigit(s[|s| - 1])
      && (sep in s <==> |FractionDigits(number)| > 0)
      && |FractionDigits(number)| <= (match number.minimumFractionDigits case Some(m) => if m > 2 then m else 2 case None => 2)
      && (number.minimumFractionDigits.Some? && number.minimumFractionDigits.value >= 2 ==>
            |FractionDigits(number)| == number.minimumFractionDigits.value)
      && (number.minimumFractionDigits.None? && |FractionDigits(number)| > 0 ==>
            FractionDigits(number)[|FractionDigits(number)| - 1] != '0')
  {
    var s := Rendered(number, [sep]);
    var whole := WholePart(number.hundredths);
    var frac := FractionDigits(number);
    FractionDigitsAreDigits(number);
    NotInDigits(frac, sep);
    if |frac| > 0 {
      assert s == whole + [sep] + frac;
      assert s[|s| - 1] == frac[|frac| - 1];
      assert s[|whole|] == sep;
    }
  }

  /** Reads a rendered number back as hundredths: an optional `-`, then
      what `ParseUnsigned` accepts. */
  function ParseRendered(s: string, sep: char): Option<int>
  {
    if |s| > 0 && s[0] == '-' then
      match ParseUnsigned(s[1..], sep)
      case Some(m) => var v: int := m; Some(-v)
      case None => None
    else
      match ParseUnsigned(s, sep)
      case Some(m) => Some(m)
      case None => None
  }

  /** Integer digits, then optionally `sep` and fraction digits, where
      digits past the second must be zeros. */
  function ParseUnsigned(body: string, sep: char): Option<nat>
  {
    match Find(body, sep)
    case None => ParseParts(body, "")
    case Some(i) => ParseParts(body[..i], body[i + 1..])
  }

  /** The value of a whole part and a fraction part, if both are digits. */
  function ParseParts(whole: string, fraction: string): Option<nat>
  {
    if |whole| == 0 || !IsDigits(whole) || !IsDigits(fraction) || !AllZeros(fraction, 2) then None
    else Some(DecimalToNat(whole) * 100 + FractionHundredths(fraction))
  }

  predicate AllZeros(s: string, from: nat) {
    forall i :: from <= i < |s| ==> s[i] == '0'
  }

  function FractionHundredths(f: string): nat
    requires IsDigits(f)
  {
    if |f| == 0 then 0
    else if |f| == 1 then 10 * DigitValue(f[0])
    else 10 * DigitValue(f[0]) + DigitValue(f[1])
  }

  lemma FractionDigitsValue(number: FluentNumber)
    ensures IsDigits(FractionDigits(number))
    ensures AllZeros(FractionDigits(number), 2)
    ensures FractionHundredths(FractionDigits(number)) == Abs(number.hundredths) % 100
  {
    var sig := SignificantFraction(number.hundredths);
    var frac := FractionDigits(number);
    FractionDigitsAreDigits(number);
    if |frac| > 0 && |sig| == 0 {
      assert frac[0] == '0';
    }
    if |frac| > 1 && |sig| <= 1 {
      assert frac[1] == '0';
    }
    if |sig| > 0 {
      assert frac[0] == sig[0];
    }
    if |sig| > 1 {
      assert frac[1] == sig[1];
    }
  }

  /** Reading whole digits alone gives their value. */
  lemma ParseUnsignedWhole(digits: string, sep: char)
    requires |digits| > 0 && IsDigits(digits) && !IsDigit(sep)
    ensures ParseUnsigned(digits, sep) == Some(DecimalToNat(digits) * 100)
  {
    NotInDigits(digits, sep);
  }

  /** Reading whole digits, a separator and fraction digits gives the two
      parts' values. */
  lemma ParseUnsignedFraction(body: string, digits: string, frac: string, sep: char)
    requires |digits| > 0 && IsDigits(digits) && IsDigits(frac) && AllZeros(frac, 2)
    requires !IsDigit(sep)
    requires body == digits + [sep] + frac
    ensures ParseUnsigned(body, sep) == Some(DecimalToNat(digits) * 100 + FractionHundredths(frac))
  {
    NotInDigits(digits, sep);
    FindAfter(digits, frac, sep);
    ParseUnsignedAt(body, sep, |digits|);
  }

  /** Where the separator is found, the text splits into the whole and the
      fraction parts. */
  lemma ParseUnsignedAt(body: string, sep: char, i: nat)
    requires Find(body, sep) == Some(i)
    ensures ParseUnsigned(body, sep) == ParseParts(body[..i], body[i + 1..])
  {
  }

  /** Reading whole digits, and any fraction after the separator, gives
      their combined value. */
  lemma ParseUnsignedParts(body: string, digits: string, frac: string, sep: char)
    requires |digits| > 0 && IsDigits(digits) && IsDigits(frac) && AllZeros(frac, 2)
    requires !IsDigit(sep)
    requires body == digits + (if |frac| == 0 then "" else [sep] + frac)
    ensures ParseUnsigned(body, sep) == Some(DecimalToNat(digits) * 100 + FractionHundredths(frac))
  {
    if |frac| == 0 {
      assert body == digits;
      ParseUnsignedWhole(digits, sep);
    } else {
      ParseUnsignedFraction(body, digits, frac, sep);
    }
  }

  /** Reading the digits and fraction back gives the magnitude. */
  lemma ParseUnsignedRoundTrip(number: FluentNumber, sep: char)
    requires !IsDigit(sep) && sep != '-'
    ensures var digits := NatToDecimal(Abs(number.hundredths) / 100);
      var frac := FractionDigits(number);
      ParseUnsigned(digits + (if |frac| == 0 then "" else [sep] + frac), sep) == Some(Abs(number.hundredths))
  {
    FractionDigitsValue(number);
    DecimalRoundTrip(Abs(number.hundredths) / 100);
    var digits := NatToDecimal(Abs(number.hundredths) / 100);
    var frac := FractionDigits(number);
    ParseUnsignedParts(digits + (if |frac| == 0 then "" else [sep] + frac), digits, frac, sep);
  }

  lemma WholePartParts(hundredths: int)
    ensures WholePart(hundredths) == (if hundredths < 0 then "-" else "") + NatToDecimal(Abs(hundredths) / 100)
  {
  }

  /** Round trip: reading the rendering back, with any separator that is
      neither a digit nor `-`, gives the value rendered. */
  lemma {:induction false} RenderedRoundTrip(number: FluentNumber, sep: char)
    requires !IsDigit(sep) && sep != '-'
    ensures ParseRendered(Rendered(number, [sep]), sep) == Some(number.hundredths)
  {
    var h := number.hundredths;
    var digits := NatToDecimal(Abs(h) / 100);
    var frac := FractionDigits(number);
    var body := digits + (if |frac| == 0 then "" else [sep] + frac);
    RenderedParts(number, sep);
    ParseUnsignedRoundTrip(number, sep);
    NotInDigits(digits, '-');
    assert body[0] == digits[0];
    if h < 0 {
      ParseRenderedNegative(body, sep, Abs(h));
    } else {
      ParseRenderedNonNegative(body, sep, Abs(h));
      assert "" + body == body;
    }
  }

  lemma RenderedParts(number: FluentNumber, sep: char)
    ensures var h := number.hundredths;
      var frac := FractionDigits(number);
      Rendered(number, [sep]) == (if h < 0 then "-" else "")
        + (NatToDecimal(Abs(h) / 100) + (if |frac| == 0 then "" else [sep] + frac))
  {
    WholePartParts(number.hundredths);
  }

  lemma ParseRenderedNegative(body: string, sep: char, m: nat)
    requires |body| > 0 && body[0] != '-'
    requires ParseUnsigned(body, sep) == Some(m)
    ensures ParseRendered("-" + body, sep) == Some(-(m as int))
  {
    assert ("-" + body)[1..] == body;
  }

  lemma ParseRenderedNonNegative(body: string, sep: char, m: nat)
    requires |body| > 0 && body[0] != '-'
    requires ParseUnsigned(body, sep) == Some(m)
    ensures ParseRendered(body, sep) == Some(m as int)
  {
  }

  // ---------------------------------------------------------------------
  // Choosing the separator (lib.rs:327-367)

  /** The part of num_format's locale table this code reads: the decimal
      separator of every locale name `Locale::from_name` accepts. */
  type NumLocaleTable = map<string, string>

  /** `num_format_locale`: the name of the numeric locale for `lang`, trying
      `language_REGION` first and then the language alone. */
  function NumFormatLocale(lang: LangId, table: NumLocaleTable): (r: Option<string>)
    ensures r.Some? ==> r.value in table
    ensures r.None? <==> lang.language !in table
                         && (lang.region.None? || lang.language + "_" + lang.region.value !in table)
    ensures (lang.region.Some? && lang.language + "_" + lang.region.value in table)
              ==> r == Some(lang.language + "_" + lang.region.value)
    ensures ((lang.region.None? || lang.language + "_" + lang.region.value !in table) && lang.language in table)
              ==> r == Some(lang.language)
  {
    match lang.region
    case Some(region) =>
      var code := lang.language + "_" + region;
      if code in table then Some(code)
      else if lang.language in table then Some(lang.language) else None
    case None =>
      if lang.language in table then Some(lang.language) else None
  }

  /** Position `i` holds the first locale of `langs` with a numeric locale. */
  predicate FirstWithNumLocale(langs: seq<LangId>, table: NumLocaleTable, i: int) {
    && 0 <= i < |langs|
    && NumFormatLocale(langs[i], table).Some?
    && forall j :: 0 <= j < i ==> NumFormatLocale(langs[j], table).None?
  }

  /** `first_available_num_format_locale`. */
  function FirstAvailableNumFormatLocale(langs: seq<LangId>, table: NumLocaleTable): (r: Option<string>)
    ensures r.None? <==> forall i :: 0 <= i < |langs| ==> NumFormatLocale(langs[i], table).None?
    ensures r.Some? ==> exists i :: FirstWithNumLocale(langs, table, i) && NumFormatLocale(langs[i], table) == r
    decreases |langs|
  {
    if |langs| == 0 then None
    else match NumFormatLocale(langs[0], table)
      case Some(name) =>
        assert FirstWithNumLocale(langs, table, 0);
        Some(name)
      case None =>
        var r := FirstAvailableNumFormatLocale(langs[1..], table);
        FirstWithNumLocaleShifts(langs, table, r);
        r
  }

  /** A search that skips a first locale without a numeric locale finds what
      the search of the rest finds. */
  lemma FirstWithNumLocaleShifts(langs: seq<LangId>, table: NumLocaleTable, r: Option<string>)
    requires |langs| > 0 && NumFormatLocale(langs[0], table).None?
    requires r.None? <==> forall i :: 0 <= i < |langs[1..]| ==> NumFormatLocale(langs[1..][i], table).None?
    requires r.Some? ==> exists i :: FirstWithNumLocale(langs[1..], table, i) && NumFormatLocale(langs[1..][i], table) == r
    ensures r.None? <==> forall i :: 0 <= i < |langs| ==> NumFormatLocale(langs[i], table).None?
    ensures r.Some? ==> exists i :: FirstWithNumLocale(langs, table, i) && NumFormatLocale(langs[i], table) == r
  {
    if r.Some? {
      var i :| FirstWithNumLocale(langs[1..], table, i) && NumFormatLocale(langs[1..][i], table) == r;
      assert FirstWithNumLocale(langs, table, i + 1) by {
        forall j | 0 <= j < i + 1 ensures NumFormatLocale(langs[j], table).None? {
          if j > 0 {
            assert langs[j] == langs[1..][j - 1];
          }
        }
      }
    } else {
      forall i | 0 <= i < |langs| ensures NumFormatLocale(langs[i], table).None? {
        if i > 0 {
          assert langs[i] == langs[1..][i - 1];
        }
      }
    }
  }

  /** `want_comma_as_decimal_separator`: a comma exactly when the first
      locale with a numeric locale uses a comma; `.` when none has one. */
  function WantCommaAsDecimalSeparator(langs: seq<LangId>, table: NumLocaleTable): (r: bool)
    ensures r <==> exists i :: FirstWithNumLocale(langs, table, i)
                              && table[NumFormatLocale(langs[i], table).value] == ","
  {
    var separator := match FirstAvailableNumFormatLocale(langs, table)
      case Some(name) => table[name]
      case None => ".";
    var r := separator == ",";
    assert r ==> exists i :: FirstWithNumLocale(langs, table, i)
                              && table[NumFormatLocale(langs[i], table).value] == ",";
    assert (exists i :: FirstWithNumLocale(langs, table, i)
                              && table[NumFormatLocale(langs[i], table).value] == ",") ==> r by {
      if exists i :: FirstWithNumLocale(langs, table, i) && table[NumFormatLocale(langs[i], table).value] == "," {
        var i :| FirstWithNumLocale(langs, table, i) && table[NumFormatLocale(langs[i], table).value] == ",";
        var k :| FirstWithNumLocale(langs, table, k) && NumFormatLocale(langs[k], table) == FirstAvailableNumFormatLocale(langs, table);
        if i < k {
          assert NumFormatLocale(langs[i], table).None?;
        } else if k < i {
          assert NumFormatLocale(langs[k], table).None?;
        }
      }
    }
    r
  }

  /** Only the first locale with a numeric locale matters: locales after it
      never change the choice. */
  lemma {:induction false} LaterLocalesDoNotMatter(langs: seq<LangId>, more: seq<LangId>, table: NumLocaleTable)
    requires exists i :: FirstWithNumLocale(langs, table, i)
    ensures WantCommaAsDecimalSeparator(langs + more, table) == WantCommaAsDecimalSeparator(langs, table)
  {
    var i :| FirstWithNumLocale(langs, table, i);
    assert FirstWithNumLocale(langs + more, table, i) by {
      forall j | 0 <= j <= i ensures (langs + more)[j] == langs[j] { }
    }
    forall k | FirstWithNumLocale(langs + more, table, k) ensures k == i {
    }
  }
}
