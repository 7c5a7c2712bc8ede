/** Locale identifiers and the mapping from a requested locale to the name
    of the bundled translation set (rslib/i18n/src/lib.rs, `remapped_lang_name`
    and the preference-parsing loop of `I18n::new`). */
module LangIds {
  import opened Wrappers
  import opened Strings

  /** A parsed language identifier (`unic_langid`'s `LanguageIdentifier`):
      a language subtag, an optional script, an optional region and any
      variant subtags. */
  datatype LangId = LangId(language: string, script: Option<string>, region: Option<string>, variants: seq<string>)

  /** What the identifier parser produces: a lower-case language subtag of
      two to eight letters. */
  predicate ValidLanguage(s: string) {
    2 <= |s| <= 8 && forall i :: 0 <= i < |s| ==> 'a' <= s[i] <= 'z'
  }

  predicate IsLetter(c: char) {
    'a' <= c <= 'z' || 'A' <= c <= 'Z'
  }

  predicate IsAlphanumeric(s: string) {
    forall i :: 0 <= i < |s| ==> IsLetter(s[i]) || IsDigit(s[i])
  }

  /** A script subtag: four letters (`Hant`). */
  predicate IsScript(s: string) {
    |s| == 4 && forall i :: 0 <= i < |s| ==> IsLetter(s[i])
  }

  /** A region subtag: two letters (`TW`) or three digits (`419`). */
  predicate IsRegion(s: string) {
    (|s| == 2 && forall i :: 0 <= i < |s| ==> IsLetter(s[i])) || (|s| == 3 && IsDigits(s))
  }

  /** A variant subtag: five to eight letters or digits, or four starting
      with a digit (`1996`). */
  predicate IsVariant(s: string) {
    IsAlphanumeric(s) && (5 <= |s| <= 8 || (|s| == 4 && IsDigit(s[0])))
  }

  /** An identifier as the parser produces it: every subtag of its kind. */
  predicate WellFormed(lang: LangId) {
    && ValidLanguage(lang.language)
    && (lang.script.Some? ==> IsScript(lang.script.value))
    && (lang.region.Some? ==> IsRegion(lang.region.value))
    && forall i :: 0 <= i < |lang.variants| ==> IsVariant(lang.variants[i])
  }

  /** `en-US`, the locale of the template (reference) translations. */
  const EnUS: LangId := LangId("en", None, Some("US"), [])

  lemma EnUSDisplay()
    ensures ToString(EnUS) == "en-US"
  {
    assert Subtags(EnUS) == ["en", "US"];
  }

  function OptionList(x: Option<string>): seq<string> {
    match x
    case Some(v) => [v]
    case None => []
  }

  /** The subtags in display order. */
  function Subtags(lang: LangId): seq<string> {
    [lang.language] + OptionList(lang.script) + OptionList(lang.region) + lang.variants
  }

  /** The display form (`to_string`): the subtags joined by `-`, as in
      `zh-Hant-TW`. */
  function ToString(lang: LangId): (r: string)
    ensures lang.language <= r
  {
    var parts := Subtags(lang);
    assert parts[0] == lang.language;
    Join(parts, '-')
  }

  /** An identifier read from its subtags: the first is the language, a
      following script-shaped one the script, then a region-shaped one the
      region; the rest are variants. */
  function FromSubtags(parts: seq<string>): LangId
    requires |parts| > 0
  {
    var rest := parts[1..];
    var script := if |rest| > 0 && IsScript(rest[0]) then Some(rest[0]) else None;
    var afterScript := if script.Some? then rest[1..] else rest;
    var region := if |afterScript| > 0 && IsRegion(afterScript[0]) then Some(afterScript[0]) else None;
    var variants := if region.Some? then afterScript[1..] else afterScript;
    LangId(parts[0], script, region, variants)
  }

  /** Reading a display form back into an identifier. */
  function ParseDisplay(s: string): LangId {
    FromSubtags(Split(s, '-'))
  }

  /** The subtag kinds cannot be mistaken for each other. */
  lemma SubtagKindsDiffer(s: string)
    ensures IsScript(s) ==> !IsRegion(s) && !IsVariant(s)
    ensures IsRegion(s) ==> !IsVariant(s)
  {
  }

  lemma {:induction false} FromSubtagsInverts(lang: LangId)
    requires WellFormed(lang)
    ensures FromSubtags(Subtags(lang)) == lang
  {
    var parts := Subtags(lang);
    var afterScript := OptionList(lang.region) + lang.variants;
    assert parts[1..] == OptionList(lang.script) + afterScript;
    if lang.script.Some? {
      assert parts[1..][1..] == afterScript;
    } else if |afterScript| > 0 {
      SubtagKindsDiffer(afterScript[0]);
    }
    if lang.region.Some? {
      assert afterScript[0] == lang.region.value;
      assert afterScript[1..] == lang.variants;
    } else if |lang.variants| > 0 {
      SubtagKindsDiffer(lang.variants[0]);
    }
  }

  /** Round trip: a well-formed identifier reads back from its display
      form, so the display form loses nothing. */
  lemma DisplayRoundTrip(lang: LangId)
    requires WellFormed(lang)
    ensures ParseDisplay(ToString(lang)) == lang
  {
    var parts := Subtags(lang);
    forall i | 0 <= i < |parts| ensures '-' !in parts[i] {
      assert IsAlphanumeric(parts[i]) || IsDigits(parts[i]);
    }
    SplitJoin(parts, '-');
    FromSubtagsInverts(lang);
  }

  /** Names of the translation sets that a language is remapped to; none of
      them is a valid language subtag. */
  predicate IsRemappedName(name: string) {
    name in ["en-GB", "templates", "zh-TW", "zh-CN", "pt-PT", "pt-BR", "ga-IE", "hy-AM", "nb-NO", "sv-SE"]
  }

  /** The languages whose set name differs from the language itself. */
  predicate IsRemappedLanguage(language: string) {
    language in ["en", "zh", "pt", "ga", "hy", "nb", "sv"]
  }

  /** The bundled translation set a locale is served from. */
  function RemappedLangName(lang: LangId): (r: string)
    ensures IsRemappedLanguage(lang.language) ==> IsRemappedName(r)
    ensures !IsRemappedLanguage(lang.language) ==> r == lang.language
  {
    SetName(lang.language, lang.region)
  }

  /** The match of `remapped_lang_name`: it reads only the language and the
      region. */
  function SetName(language: string, region: Option<string>): string {
    match language
    case "en" =>
      if region == Some("GB") || region == Some("AU") then "en-GB"
      // plain English goes straight to the template set
      else "templates"
    case "zh" =>
      if region == Some("TW") || region == Some("HK") then "zh-TW" else "zh-CN"
    case "pt" =>
      if region == Some("PT") then "pt-PT" else "pt-BR"
    case "ga" => "ga-IE"
    case "hy" => "hy-AM"
    case "nb" => "nb-NO"
    case "sv" => "sv-SE"
    case other => other
  }

  /** No valid language subtag is the name of a remapped set, so a set name
      tells whether the language was remapped. */
  lemma ValidLanguageIsNotRemappedName(s: string)
    requires ValidLanguage(s)
    ensures !IsRemappedName(s)
  {
    if |s| == 5 {
      assert s[2] != '-';
    }
  }

  /** The template set is chosen exactly for English outside Britain and Australia. */
  lemma RemapTemplatesExactly(lang: LangId)
    requires ValidLanguage(lang.language)
    ensures RemappedLangName(lang) == "templates"
        <==> lang.language == "en" && lang.region != Some("GB") && lang.region != Some("AU")
  {
    ValidLanguageIsNotRemappedName(lang.language);
  }

  /** Each remapped set is reached from exactly one language, and from the
      regions listed for it. */
  lemma RemapPreimages(lang: LangId)
    requires ValidLanguage(lang.language)
    ensures RemappedLangName(lang) == "en-GB" <==> lang.language == "en" && lang.region in {Some("GB"), Some("AU")}
    ensures RemappedLangName(lang) == "zh-TW" <==> lang.language == "zh" && lang.region in {Some("TW"), Some("HK")}
    ensures RemappedLangName(lang) == "zh-CN" <==> lang.language == "zh" && lang.region !in {Some("TW"), Some("HK")}
    ensures RemappedLangName(lang) == "pt-PT" <==> lang.language == "pt" && lang.region == Some("PT")
    ensures RemappedLangName(lang) == "pt-BR" <==> lang.language == "pt" && lang.region != Some("PT")
    ensures RemappedLangName(lang) == "ga-IE" <==> lang.language == "ga"
    ensures RemappedLangName(lang) == "hy-AM" <==> lang.language == "hy"
    ensures RemappedLangName(lang) == "nb-NO" <==> lang.language == "nb"
    ensures RemappedLangName(lang) == "sv-SE" <==> lang.language == "sv"
  {
    ValidLanguageIsNotRemappedName(lang.language);
  }

  /** Script and variants never matter, and the region only matters for
      English, Chinese and Portuguese. */
  lemma RemapIgnoresRegion(lang1: LangId, lang2: LangId)
    requires lang1.language == lang2.language
    ensures lang1.region == lang2.region ==> RemappedLangName(lang1) == RemappedLangName(lang2)
    ensures lang1.language !in ["en", "zh", "pt"] ==> RemappedLangName(lang1) == RemappedLangName(lang2)
  {
  }

  /** Only the template set and `en-GB` serve English, and British and
      Australian English share a set. */
  lemma RemapEnglish(lang: LangId)
    ensures lang.language == "en" ==> RemappedLangName(lang) in {"en-GB", "templates"}
    ensures lang.language == "en" && lang.region in {Some("GB"), Some("AU")} ==> RemappedLangName(lang) == "en-GB"
    ensures RemappedLangName(EnUS) == "templates"
  {
  }

  /** The preference-parsing loop of `I18n::new`: unparseable codes are
      dropped, and parsing stops after the first English entry. */
  function ParsePreferences(codes: seq<string>, parse: string -> Option<LangId>): (r: seq<LangId>)
    ensures |r| <= |codes|
    ensures forall i :: 0 <= i < |r| - 1 ==> r[i].language != "en"
    decreases |codes|
  {
    if |codes| == 0 then []
    else match parse(codes[0])
      case None => ParsePreferences(codes[1..], parse)
      case Some(lang) =>
        if lang.language == "en" then [lang] else [lang] + ParsePreferences(codes[1..], parse)
  }

  /** Every code the parser accepts, in order. */
  function ParseAll(codes: seq<string>, parse: string -> Option<LangId>): seq<LangId>
    decreases |codes|
  {
    if |codes| == 0 then []
    else match parse(codes[0])
      case None => ParseAll(codes[1..], parse)
      case Some(lang) => [lang] + ParseAll(codes[1..], parse)
  }

  /** The parsing loop keeps a prefix of all parsed codes: all of them, or
      those up to and including the first English one (only the last entry
      of the result may be English). */
  lemma {:induction false} ParsePreferencesIsTruncatedParse(codes: seq<string>, parse: string -> Option<LangId>)
    ensures ParsePreferences(codes, parse) <= ParseAll(codes, parse)
    ensures var r := ParsePreferences(codes, parse);
      r == ParseAll(codes, parse) || (|r| > 0 && r[|r| - 1].language == "en")
    decreases |codes|
  {
    if |codes| > 0 {
      ParsePreferencesIsTruncatedParse(codes[1..], parse);
    }
  }
}
