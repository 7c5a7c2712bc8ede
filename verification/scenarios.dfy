/** The cases exercised by the tests of rslib/i18n/src/lib.rs:435-490, on a
    small catalog holding the test texts as its bundled translations. */
module Scenarios {
  import opened Wrappers
  import opened Strings
  import opened LangIds
  import opened Numbers
  import opened Fluent
  import opened Bundles
  import opened I18n

  const EnText: string := "\nvalid-key = a valid key\nonly-in-english = not translated\ntwo-args-key = two args: {$one} and {$two}\n"
  const JaText: string := "\nvalid-key = キー\ntwo-args-key = {$one}と{$two}    \n"
  const PlText: string := "\none-arg-key = fake Polish {$one}\n"

  const EnResource: Resource := [
    Entry("valid-key", Message(Some([Text("a valid key")]))),
    Entry("only-in-english", Message(Some([Text("not translated")]))),
    Entry("two-args-key", Message(Some([Text("two args: "), Variable("one"), Text(" and "), Variable("two")])))
  ]
  const JaResource: Resource := [
    Entry("valid-key", Message(Some([Text("キー")]))),
    Entry("two-args-key", Message(Some([Variable("one"), Text("と"), Variable("two")])))
  ]
  const PlResource: Resource := [
    Entry("one-arg-key", Message(Some([Text("fake Polish "), Variable("one")])))
  ]

  /** What the Fluent parser makes of the three texts. */
  function ParseTestText(text: string): Option<Resource> {
    if text == EnText then Some(EnResource)
    else if text == JaText then Some(JaResource)
    else if text == PlText then Some(PlResource)
    else None
  }

  /** What the identifier parser makes of the codes the tests pass. */
  function ParseTestCode(code: string): Option<LangId> {
    if code == "zz" then Some(LangId("zz", None, None, []))
    else if code == "ja_JP" then Some(LangId("ja", None, Some("JP"), []))
    else if code == "pl-PL" then Some(LangId("pl", None, Some("PL"), []))
    else if code == "en-US" then Some(EnUS)
    else None
  }

  /** The numeric locales involved: English and Japanese use `.`, Polish `,`. */
  const TestTable: NumLocaleTable := map["en" := ".", "ja" := ".", "pl" := ","]

  const TestEnv: Env := Env(
    ParseTestCode,
    map["templates" := [EnText], "ja" := [JaText], "pl" := [PlText]],
    ParseTestText,
    TestTable)

  function Num(hundredths: int): FluentValue {
    NumberValue(FluentNumber(hundredths, None))
  }

  /** lib.rs:437-438: `en-US` keeps `.`, `pl-PL` wants `,`. */
  lemma SeparatorExamples()
    ensures !WantCommaAsDecimalSeparator([EnUS], TestTable)
    ensures WantCommaAsDecimalSeparator([LangId("pl", None, Some("PL"), [])], TestTable)
  {
    assert NumFormatLocale(EnUS, TestTable) == Some("en");
    assert FirstWithNumLocale([EnUS], TestTable, 0);
    assert NumFormatLocale(LangId("pl", None, Some("PL"), []), TestTable) == Some("pl");
    assert FirstWithNumLocale([LangId("pl", None, Some("PL"), [])], TestTable, 0);
  }

  /** 1 renders as `1` (lib.rs:472-475) and 1.1 as `1.1` (lib.rs:448-451, 458-459). */
  lemma WholeAndTenthExamples()
    ensures FormatNumberValues(Num(100), None) == Some("1")
    ensures FormatNumberValues(Num(110), None) == Some("1.1")
  {
    assert DigitChar(1) == '1';
    assert NatToDecimal(1) == "1";
    assert WholePart(100) == "1";
    assert SignificantFraction(100) == "";
    assert Rendered(FluentNumber(100, None), ".") == "1";
    assert WholePart(110) == "1";
    assert SignificantFraction(110) == "1";
    assert Rendered(FluentNumber(110, None), ".") == "1" + "." + "1";
    assert "1" + "." + "1" == "1.1";
    assert FormatNumberValues(Num(110), None).value == Rendered(FluentNumber(110, None), ".");
  }

  /** lib.rs:462-463: 3 renders as `3`. */
  lemma IntegerExample()
    ensures FormatNumberValues(Num(300), None) == Some("3")
  {
    assert DigitChar(3) == '3';
    assert NatToDecimal(3) == "3";
    assert WholePart(300) == "3";
    assert SignificantFraction(300) == "";
    assert Rendered(FluentNumber(300, None), ".") == "3";
  }

  /** lib.rs:478-489: 2.07 renders as `2,07` with the comma formatter and
      as `2.07` without it. */
  lemma HundredthExamples()
    ensures FormatNumberValues(Num(207), Some(",")) == Some("2,07")
    ensures FormatNumberValues(Num(207), None) == Some("2.07")
  {
    assert DigitChar(2) == '2' && DigitChar(0) == '0' && DigitChar(7) == '7';
    assert NatToDecimal(2) == "2";
    assert WholePart(207) == "2";
    assert SignificantFraction(207) == "07";
    assert Rendered(FluentNumber(207, None), ",") == "2" + "," + "07";
    assert Rendered(FluentNumber(207, None), ".") == "2" + "." + "07";
    assert "2" + "," + "07" == "2,07";
    assert "2" + "." + "07" == "2.07";
    assert SeparatorText(Some(",")) == ",";
    assert FormatNumberValues(Num(207), Some(",")).value == Rendered(FluentNumber(207, None), ",");
  }

  /** lib.rs:402-409 with a minimum: 1.5 with three digits pads to `1.500`,
      and -0.05 with two keeps `-0,05` under the comma formatter. */
  lemma PaddingExamples()
    ensures FormatNumberValues(NumberValue(FluentNumber(150, Some(3))), None) == Some("1.500")
    ensures FormatNumberValues(NumberValue(FluentNumber(-5, Some(2))), Some(",")) == Some("-0,05")
  {
    assert DigitChar(1) == '1' && DigitChar(5) == '5' && DigitChar(0) == '0';
    assert NatToDecimal(1) == "1" && NatToDecimal(0) == "0";
    assert SignificantFraction(150) == "5";
    assert Repeat('0', 2) == "00";
    assert FractionDigits(FluentNumber(150, Some(3))) == "500";
    assert WholePart(150) == "1";
    assert Rendered(FluentNumber(150, Some(3)), ".") == "1" + "." + "500" == "1.500";
    assert Abs(-5) == 5;
    assert WholePart(-5) == "-0";
    assert SignificantFraction(-5) == "05";
    assert FractionDigits(FluentNumber(-5, Some(2))) == "05";
    assert Rendered(FluentNumber(-5, Some(2)), ",") == "-0" + "," + "05" == "-0,05";
    assert SeparatorText(Some(",")) == ",";
  }

  /** The counterexample to the padding at lib.rs:405: 1.25 with a minimum of
      no fraction digits makes the `usize` subtraction `0 - 2` underflow,
      where the corrected renderer prints `1.25`. */
  lemma UnderflowExample()
    ensures FormatNumberAsWritten(FluentNumber(125, Some(0)), None) == Failure("attempt to subtract with overflow")
    ensures FormatNumberValues(NumberValue(FluentNumber(125, Some(0))), None) == Some("1.25")
  {
    assert DigitChar(1) == '1' && DigitChar(2) == '2' && DigitChar(5) == '5';
    assert NatToDecimal(1) == "1";
    assert WholePart(125) == "1";
    assert FixedTwo(125) == "1.25";
    assert TrimmedFixedTwo(125) == "1.25";
    assert Find("1.25", '.') == Some(1);
    assert SignificantFraction(125) == "25";
    assert Rendered(FluentNumber(125, Some(0)), ".") == "1" + "." + "25" == "1.25";
  }

  // ---------------------------------------------------------------------
  // The engine on the test catalog

  const JaJP: LangId := LangId("ja", None, Some("JP"), [])
  const PlPL: LangId := LangId("pl", None, Some("PL"), [])

  const EnBundle: Bundle := Bundle([EnUS], map[
    "valid-key" := EnResource[0].message,
    "only-in-english" := EnResource[1].message,
    "two-args-key" := EnResource[2].message], false)
  const JaBundle: Bundle := Bundle([JaJP, EnUS], map[
    "valid-key" := JaResource[0].message,
    "two-args-key" := JaResource[1].message], false)
  const PlBundle: Bundle := Bundle([PlPL, EnUS], map[
    "one-arg-key" := PlResource[0].message], true)

  const EnEngine: Engine := Engine([EnBundle], [EnUS], [EnText])
  const JaEngine: Engine := Engine([JaBundle, EnBundle], [JaJP, EnUS], [JaText, EnText])
  const PlEngine: Engine := Engine([PlBundle, EnBundle], [PlPL, EnUS], [PlText, EnText])

  /** The template text is found. */
  lemma TemplateTextFound()
    ensures TemplateText(TestEnv) == Some(EnText)
  {
    assert Concat([EnText]) == EnText;
  }

  /** The template resource adds its three messages. */
  lemma TemplateMessages()
    ensures AddResource(map[], EnResource) == Some(EnBundle.messages)
  {
    assert Ids(EnResource) == {"valid-key", "only-in-english", "two-args-key"};
    assert !HasDuplicateIds(EnResource);
  }

  /** The template text builds the English bundle, which keeps `.`. */
  lemma TemplateBuilds()
    ensures TemplateText(TestEnv) == Some(EnText)
    ensures GetBundleWithExtra(EnText, None, ParseTestText, TestTable) == Some(EnBundle)
  {
    TemplateTextFound();
    TemplateMessages();
    SeparatorExamples();
  }

  /** The Japanese text builds its bundle, with the `.` of its own locale list. */
  lemma JapaneseBuilds()
    ensures GetBundleWithExtra(JaText, Some(JaJP), ParseTestText, TestTable) == Some(JaBundle)
  {
    assert Ids(JaResource) == {"valid-key", "two-args-key"};
    assert !HasDuplicateIds(JaResource);
    assert NumFormatLocale(JaJP, TestTable) == Some("ja");
    assert FirstWithNumLocale([JaJP, EnUS], TestTable, 0);
  }

  /** The Polish text builds its bundle, with the comma of its own locale list. */
  lemma PolishBuilds()
    ensures GetBundleWithExtra(PlText, Some(PlPL), ParseTestText, TestTable) == Some(PlBundle)
  {
    assert Ids(PlResource) == {"one-arg-key"};
    assert NumFormatLocale(PlPL, TestTable) == Some("pl");
    assert FirstWithNumLocale([PlPL, EnUS], TestTable, 0);
  }

  /** lib.rs:444: `zz` parses, but no set is bundled for it. */
  lemma UnknownLocaleIsSkipped()
    ensures ParsePreferences(["zz"], ParseTestCode) == [LangId("zz", None, None, [])]
    ensures ResolvePreferred([LangId("zz", None, None, [])], TestEnv) == []
  {
    assert RemappedLangName(LangId("zz", None, None, [])) == "zz";
  }

  /** A single usable preference becomes a single entry. */
  lemma ResolveOne(lang: LangId, env: Env, text: string, bundle: Bundle)
    requires FtlLocalizedText(lang, env.strings) == Some(text)
    requires GetBundleWithExtra(text, Some(lang), env.parseResource, env.numLocales) == Some(bundle)
    ensures ResolvePreferred([lang], env) == [Slot(lang, text, bundle)]
  {
    assert [lang][1..] == [];
  }

  /** lib.rs:467: `ja_JP` parses to Japanese. */
  lemma JapaneseParses()
    ensures ParsePreferences(["ja_JP"], ParseTestCode) == [JaJP]
  {
  }

  /** lib.rs:467: Japanese is bundled and builds. */
  lemma JapaneseIsResolved()
    ensures ResolvePreferred([JaJP], TestEnv) == [Slot(JaJP, JaText, JaBundle)]
  {
    assert FtlLocalizedText(JaJP, TestEnv.strings) == Some(JaText) by {
      assert Concat([JaText]) == JaText;
    }
    JapaneseBuilds();
    ResolveOne(JaJP, TestEnv, JaText, JaBundle);
  }

  /** lib.rs:478: `pl-PL` parses to Polish. */
  lemma PolishParses()
    ensures ParsePreferences(["pl-PL"], ParseTestCode) == [PlPL]
  {
  }

  /** lib.rs:478: Polish is bundled and builds. */
  lemma PolishIsResolved()
    ensures ResolvePreferred([PlPL], TestEnv) == [Slot(PlPL, PlText, PlBundle)]
  {
    assert FtlLocalizedText(PlPL, TestEnv.strings) == Some(PlText) by {
      assert Concat([PlText]) == PlText;
    }
    PolishBuilds();
    ResolveOne(PlPL, TestEnv, PlText, PlBundle);
  }

  /** A chain with no preferred entry. */
  lemma AssembleNone(templateText: string, templateBundle: Bundle)
    ensures Assemble([], templateText, templateBundle) == Engine([templateBundle], [EnUS], [templateText])
  {
  }

  /** A chain with one preferred entry. */
  lemma AssembleOne(slot: Slot, templateText: string, templateBundle: Bundle)
    ensures Assemble([slot], templateText, templateBundle)
      == Engine([slot.bundle, templateBundle], [slot.lang, EnUS], [slot.text, templateText])
  {
    assert SlotLangs([slot]) == [slot.lang];
  }

  /** lib.rs:444: the chain is the template alone. */
  lemma UnknownLocaleEngine()
    ensures New(["zz"], TestEnv) == Success(EnEngine)
  {
    UnknownLocaleIsSkipped();
    TemplateBuilds();
    NewIsAssembled(["zz"], TestEnv);
    AssembleNone(EnText, EnBundle);
  }

  /** lib.rs:467: Japanese first, then the template. */
  lemma JapaneseEngine()
    ensures New(["ja_JP"], TestEnv) == Success(JaEngine)
  {
    JapaneseParses();
    JapaneseIsResolved();
    TemplateBuilds();
    NewIsAssembled(["ja_JP"], TestEnv);
    AssembleOne(Slot(JaJP, JaText, JaBundle), EnText, EnBundle);
  }

  /** lib.rs:478: Polish first, then the template. */
  lemma PolishEngine()
    ensures New(["pl-PL"], TestEnv) == Success(PlEngine)
  {
    PolishParses();
    PolishIsResolved();
    TemplateBuilds();
    NewIsAssembled(["pl-PL"], TestEnv);
    AssembleOne(Slot(PlPL, PlText, PlBundle), EnText, EnBundle);
  }

  /** A bundle that cannot answer is passed over. */
  lemma SkipsUntranslating(bundle: Bundle, rest: seq<Bundle>, key: string, args: Args)
    requires !Translates(bundle, key)
    ensures Lookup([bundle] + rest, key, args) == Lookup(rest, key, args)
  {
    assert ([bundle] + rest)[1..] == rest;
  }

  /** A bundle that can answer formats the message. */
  lemma AnswersFirst(bundle: Bundle, rest: seq<Bundle>, key: string, args: Args)
    requires Translates(bundle, key)
    ensures Lookup([bundle] + rest, key, args) == FormatPattern(bundle, bundle.messages[key].value.value, args)
  {
    assert FirstTranslating([bundle] + rest, key, 0);
  }

  /** The shapes of the test messages: the pieces rendered side by side. */
  lemma TextThenVariable(bundle: Bundle, t: string, v: string, args: Args, s: string)
    requires FormatVariable(bundle, v, args) == s
    ensures FormatPattern(bundle, [Text(t), Variable(v)], args) == t + s
  {
    assert FormatPattern(bundle, [Variable(v)], args) == s + "";
  }

  lemma VariableTextVariable(bundle: Bundle, v1: string, t: string, v2: string, args: Args, s1: string, s2: string)
    requires FormatVariable(bundle, v1, args) == s1 && FormatVariable(bundle, v2, args) == s2
    ensures FormatPattern(bundle, [Variable(v1), Text(t), Variable(v2)], args) == s1 + t + s2
  {
    assert [Variable(v1), Text(t), Variable(v2)][1..] == [Text(t), Variable(v2)];
    TextThenVariable(bundle, t, v2, args, s2);
    assert s1 + (t + s2) == s1 + t + s2;
  }

  lemma TwoArgsShape(bundle: Bundle, t1: string, v1: string, t2: string, v2: string, args: Args, s1: string, s2: string)
    requires FormatVariable(bundle, v1, args) == s1 && FormatVariable(bundle, v2, args) == s2
    ensures FormatPattern(bundle, [Text(t1), Variable(v1), Text(t2), Variable(v2)], args) == t1 + s1 + t2 + s2
  {
    assert [Text(t1), Variable(v1), Text(t2), Variable(v2)] == [Text(t1), Variable(v1)] + [Text(t2), Variable(v2)];
    FormatPatternConcat(bundle, [Text(t1), Variable(v1)], [Text(t2), Variable(v2)], args);
    TextThenVariable(bundle, t1, v1, args, s1);
    TextThenVariable(bundle, t2, v2, args, s2);
    assert (t1 + s1) + (t2 + s2) == t1 + s1 + t2 + s2;
  }

  /** The expected outputs, as the pieces that make them up. */
  lemma ExpectedTexts()
    ensures "two args: " + "1.1" + " and " + "2" == "two args: 1.1 and 2"
    ensures "1" + "と" + "2" == "1と2"
    ensures "fake Polish " + "2,07" == "fake Polish 2,07"
    ensures "two args: " + "1" + " and " + "2.07" == "two args: 1 and 2.07"
  {
  }

  /** A string argument renders as itself. */
  lemma StringArgument(bundle: Bundle, name: string, args: Args, text: string)
    requires name in args && args[name] == StringValue(text)
    ensures FormatVariable(bundle, name, args) == text
  {
  }

  /** lib.rs:445 */
  lemma EnglishValidKey()
    ensures Tr(EnEngine, "valid-key", map[]) == "a valid key"
  {
    AnswersFirst(EnBundle, [], "valid-key", map[]);
    assert [EnBundle] + [] == EnEngine.bundles;
  }

  /** lib.rs:446 */
  lemma EnglishInvalidKey()
    ensures Tr(EnEngine, "invalid-key", map[]) == "invalid-key"
  {
  }

  /** The argument values of the tests, as the bundles render them. */
  lemma EnglishRendersTenth()
    ensures FormatVariable(EnBundle, "one", map["one" := Num(110), "two" := StringValue("2")]) == "1.1"
  {
    WholeAndTenthExamples();
  }

  /** lib.rs:448-451 */
  lemma EnglishTwoArgs()
    ensures Tr(EnEngine, "two-args-key", map["one" := Num(110), "two" := StringValue("2")]) == "two args: 1.1 and 2"
  {
    var args := map["one" := Num(110), "two" := StringValue("2")];
    assert [EnBundle] + [] == EnEngine.bundles;
    AnswersFirst(EnBundle, [], "two-args-key", args);
    EnglishRendersTenth();
    StringArgument(EnBundle, "two", args, "2");
    TwoArgsShape(EnBundle, "two args: ", "one", " and ", "two", args, "1.1", "2");
    ExpectedTexts();
  }

  /** lib.rs:468 */
  lemma JapaneseValidKey()
    ensures Tr(JaEngine, "valid-key", map[]) == "キー"
  {
    AnswersFirst(JaBundle, [EnBundle], "valid-key", map[]);
    assert [JaBundle] + [EnBundle] == JaEngine.bundles;
  }

  /** lib.rs:469: a key Japanese lacks falls back on English. */
  lemma JapaneseFallsBack()
    ensures Tr(JaEngine, "only-in-english", map[]) == "not translated"
  {
    assert JaEngine.bundles == [JaBundle] + [EnBundle];
    SkipsUntranslating(JaBundle, [EnBundle], "only-in-english", map[]);
    AnswersFirst(EnBundle, [], "only-in-english", map[]);
    assert [EnBundle] + [] == [EnBundle];
  }

  /** lib.rs:470 */
  lemma JapaneseInvalidKey()
    ensures Tr(JaEngine, "invalid-key", map[]) == "invalid-key"
  {
    assert JaEngine.bundles == [JaBundle] + [EnBundle];
    SkipsUntranslating(JaBundle, [EnBundle], "invalid-key", map[]);
    EnglishInvalidKey();
  }

  lemma JapaneseRendersOne()
    ensures FormatVariable(JaBundle, "one", map["one" := Num(100), "two" := StringValue("2")]) == "1"
  {
    WholeAndTenthExamples();
  }

  /** lib.rs:472-475 */
  lemma JapaneseTwoArgs()
    ensures Tr(JaEngine, "two-args-key", map["one" := Num(100), "two" := StringValue("2")]) == "1と2"
  {
    var args := map["one" := Num(100), "two" := StringValue("2")];
    assert [JaBundle] + [EnBundle] == JaEngine.bundles;
    AnswersFirst(JaBundle, [EnBundle], "two-args-key", args);
    JapaneseRendersOne();
    StringArgument(JaBundle, "two", args, "2");
    VariableTextVariable(JaBundle, "one", "と", "two", args, "1", "2");
    ExpectedTexts();
  }

  lemma PolishRendersComma()
    ensures FormatVariable(PlBundle, "one", map["one" := Num(207)]) == "2,07"
  {
    HundredthExamples();
  }

  /** lib.rs:480-483: the Polish bundle writes a comma. */
  lemma PolishComma()
    ensures Tr(PlEngine, "one-arg-key", map["one" := Num(207)]) == "fake Polish 2,07"
  {
    var args := map["one" := Num(207)];
    assert [PlBundle] + [EnBundle] == PlEngine.bundles;
    AnswersFirst(PlBundle, [EnBundle], "one-arg-key", args);
    PolishRendersComma();
    TextThenVariable(PlBundle, "fake Polish ", "one", args, "2,07");
    ExpectedTexts();
  }

  lemma EnglishRendersInteger()
    ensures FormatVariable(EnBundle, "one", map["one" := Num(100), "two" := Num(207)]) == "1"
  {
    WholeAndTenthExamples();
  }

  lemma EnglishRendersDot()
    ensures FormatVariable(EnBundle, "two", map["one" := Num(100), "two" := Num(207)]) == "2.07"
  {
    HundredthExamples();
  }

  /** lib.rs:484-489: a key that falls back on the template is formatted by
      the template bundle, with `.`. */
  lemma PolishFallbackKeepsDot()
    ensures Tr(PlEngine, "two-args-key", map["one" := Num(100), "two" := Num(207)]) == "two args: 1 and 2.07"
  {
    var args := map["one" := Num(100), "two" := Num(207)];
    assert PlEngine.bundles == [PlBundle] + [EnBundle];
    SkipsUntranslating(PlBundle, [EnBundle], "two-args-key", args);
    AnswersFirst(EnBundle, [], "two-args-key", args);
    assert [EnBundle] + [] == [EnBundle];
    EnglishRendersInteger();
    EnglishRendersDot();
    TwoArgsShape(EnBundle, "two args: ", "one", " and ", "two", args, "1", "2.07");
    ExpectedTexts();
  }

  /** lib.rs:290-297 on the Japanese engine: the locales in display form,
      the template last, each beside its text. */
  lemma JapaneseExport()
    ensures ResourcesForJs(JaEngine) == ResourcesForJavascript(["ja-JP", "en-US"], [JaText, EnText])
  {
    EnUSDisplay();
    assert ToString(JaJP) == "ja-JP";
  }
}
