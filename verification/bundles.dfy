/** Building one bundle from resource text (`get_bundle` and
    `get_bundle_with_extra`, rslib/i18n/src/lib.rs:96-158). */
module Bundles {
  import opened Wrappers
  import opened LangIds
  import opened Numbers
  import opened Fluent

  /** `get_bundle`: the main text must parse and must not repeat a message
      id, or there is no bundle. A non-empty extra text that parses is added
      with overriding; one that does not parse is ignored. The number
      formatter is chosen from the bundle's own locale list. */
  function GetBundle(text: string, extraText: string, locales: seq<LangId>,
                     parse: ResourceParser, table: NumLocaleTable): (r: Option<Bundle>)
    ensures r.None? <==> parse(text).None? || HasDuplicateIds(parse(text).value)
    ensures r.Some? ==> r.value.locales == locales
    ensures r.Some? ==> r.value.commaFormatter == WantCommaAsDecimalSeparator(locales, table)
  {
    match parse(text)
    case None => None
    case Some(res) =>
      match AddResource(map[], res)
      case None => None
      case Some(messages) =>
        var all := if extraText != "" then
            match parse(extraText)
            case Some(extraRes) => AddResourceOverriding(messages, extraRes)
            case None => messages
          else messages;
        Some(Bundle(locales, all, WantCommaAsDecimalSeparator(locales, table)))
  }

  /** The messages of a built bundle: those of the main text, except where
      a parsed extra text has a message with the same id, whose last
      occurrence then wins. */
  lemma GetBundleMessages(text: string, extraText: string, locales: seq<LangId>,
                          parse: ResourceParser, table: NumLocaleTable)
    requires parse(text).Some? && !HasDuplicateIds(parse(text).value)
    ensures GetBundle(text, extraText, locales, parse, table).Some?
    ensures var messages := GetBundle(text, extraText, locales, parse, table).value.messages;
      var main := parse(text).value;
      var extra: Resource := if extraText != "" && parse(extraText).Some? then parse(extraText).value else [];
      && messages.Keys == Ids(main) + Ids(extra)
      && (forall i :: 0 <= i < |main| && main[i].id !in Ids(extra) ==> messages[main[i].id] == main[i].message)
      && (forall i :: LastWithId(extra, i) ==> messages[extra[i].id] == extra[i].message)
  {
    var extra: Resource := if extraText != "" && parse(extraText).Some? then parse(extraText).value else [];
    var messages := AddResource(map[], parse(text).value).value;
    assert GetBundle(text, extraText, locales, parse, table).value.messages == AddResourceOverriding(messages, extra);
  }

  /** The locale list of a bundle: its own locale, if any, then `en-US`. */
  function BundleLocales(lang: Option<LangId>): (r: seq<LangId>)
    ensures |r| > 0 && r[|r| - 1] == EnUS
    ensures lang.None? <==> r == [EnUS]
    ensures lang.Some? ==> |r| == 2 && r[0] == lang.value
  {
    match lang
    case Some(l) => [l, EnUS]
    case None => [EnUS]
  }

  /** `get_bundle_with_extra` in a non-test build: no extra text, and the
      locale list `[lang, en-US]`, or `[en-US]` for the template. */
  function GetBundleWithExtra(text: string, lang: Option<LangId>,
                              parse: ResourceParser, table: NumLocaleTable): (r: Option<Bundle>)
    ensures r.None? <==> parse(text).None? || HasDuplicateIds(parse(text).value)
    ensures r.Some? ==> r.value.locales == BundleLocales(lang)
    ensures r.Some? ==> r.value.commaFormatter == WantCommaAsDecimalSeparator(BundleLocales(lang), table)
  {
    GetBundle(text, "", BundleLocales(lang), parse, table)
  }
}
