# Anki translation engine, modelled in Dafny

This project models the translation core of Anki's Rust back end, the file
`rslib/i18n/src/lib.rs`. The model covers these pieces:

- **Set mapping.** `remapped_lang_name` maps a requested locale to the bundled
  translation set that serves it.
- **Fallback chain.** `I18n::new` builds the chain of Fluent bundles: preferred
  locales first, then the `en-US` template last. It relies on
  `ftl_localized_text`, `get_bundle_with_extra` and `get_bundle`.
- **Lookup.** `tr_` looks a key up along the chain. The legacy integer keys
  (`get_key_legacy` and `get_key`) decompose into module and index.
- **Export.** `resources_for_js` hands the chain's locales and texts to the
  JavaScript side.
- **Numbers.** Each bundle gets its own decimal separator
  (`want_comma_as_decimal_separator`, `first_available_num_format_locale`,
  `num_format_locale`). Its number renderer is `format_number_values`.

The model is functional: immutable datatypes and pure functions. The modules
are:

| module | file | contents |
|---|---|---|
| `Wrappers` | wrappers.dfy | `Option` and `Result` |
| `Strings` | strings.dfy | Decimal digits and the string operations the renderer uses (trim, find, repeat, replace). |
| `LangIds` | langids.dfy | Language identifiers, the set mapping, and the preference-parsing loop. |
| `Numbers` | numbers.dfy | The number renderer as written and as corrected; an arithmetic description of its output with a parser that reads it back; the separator choice. |
| `Fluent` | fluent.dfy | A stand-in for the Fluent engine: resources, bundles as key-to-message maps, `add_resource`, `add_resource_overriding`, message lookup, and pattern formatting. |
| `Bundles` | bundles.dfy | `get_bundle` and `get_bundle_with_extra`. |
| `I18n` | i18n.dfy | Chain construction, lookup, the legacy keys, and the export. |
| `Scenarios` | scenarios.dfy | The cases of the file's unit tests, on a catalog made of the test texts. |

The model takes several things from the environment as parameters:

- the Fluent resource parser (`FluentResource::try_new`);
- the `unic_langid` identifier parser;
- the generated `STRINGS` table, a map from set name to module texts;
- the generated `KEYS_BY_MODULE` table;
- the part of `num_format`'s locale table this code reads, a map from locale
  name to decimal separator.

A Fluent number argument is given as its value in hundredths, with its
`minimumFractionDigits` option. The renderer starts from a two-decimal
rendering, so for a finite value other than a negative one that rounds to
zero, hundredths are all of the value it uses. Non-finite values and
negative zero are outside the model (see "Left out").

Fluent number arguments are rendered by the corrected renderer throughout
the engine (`Numbers.FormatNumber`); the renderer as written, with its
underflow panic, is modelled beside it (see "Findings").

**The separator is chosen per bundle.** A bundle's formatter comes from that
bundle's own locale list: `[lang, en-US]` for a preferred locale, `[en-US]`
alone for the template (lib.rs:123 and 150-157). It is not one choice for the
whole chain. So a key that falls back on the template is rendered with `.`,
even when the preferred locale writes a comma. The model follows this, and
the test at lib.rs:484-489 shows the same behaviour
(`Scenarios.PolishFallbackKeepsDot`).

## Model

| member | source | states |
|---|---|---|
| `LangIds.RemappedLangName` | rslib/i18n/src/lib.rs:33-63 | Each of `en`, `zh`, `pt`, `ga`, `hy`, `nb`, `sv` goes to one of the ten bundled set names. Every other language is returned unchanged, whatever its region. |
| `LangIds.RemapTemplatesExactly` | rslib/i18n/src/lib.rs:38-45 | For a well-formed language subtag, the template set is chosen if and only if the language is `en` and the region is neither GB nor AU. |
| `LangIds.RemapPreimages` | rslib/i18n/src/lib.rs:38-62 | For each remapped set name, exactly which language and regions reach it: `en-GB` from en-GB and en-AU; `zh-TW` from zh-TW and zh-HK; `zh-CN` from any other `zh`; `pt-PT` from pt-PT; `pt-BR` from any other `pt`; `ga-IE`, `hy-AM`, `nb-NO`, `sv-SE` from their language with any region. |
| `LangIds.RemapIgnoresRegion` | rslib/i18n/src/lib.rs:33-63 | Two identifiers with the same language and region get the same set, whatever their script and variants. Unless the language is `en`, `zh` or `pt`, the region makes no difference either. |
| `LangIds.RemapEnglish` | rslib/i18n/src/lib.rs:39-45 | English is only ever served from `en-GB` or the template set. English with region GB or AU is served from `en-GB`, and en-US reads the template. |
| `LangIds.ParsePreferences` | rslib/i18n/src/lib.rs:188-199 | The parsed preferences are no longer than the codes given, and no entry before the last is English. |
| `LangIds.ParsePreferencesIsTruncatedParse` | rslib/i18n/src/lib.rs:188-199 | The parsed preferences are a prefix of all the codes the parser accepts (unparseable codes dropped). The prefix is either all of them or ends at the first English entry. |
| `Strings.TrimEndMatches` | rslib/i18n/src/lib.rs:399 | The result is a prefix of the input that does not end in the trimmed character, and everything removed is that character. |
| `Numbers.TrimmedIsSignificant` | rslib/i18n/src/lib.rs:390-399 | Trimming the zeros of the two-decimal rendering leaves the integer part, the `.`, and only the significant fraction digits. |
| `Numbers.PaddedIsFractionDigits` | rslib/i18n/src/lib.rs:401-409 | Padding (as corrected) adds zeros up to the minimum number of fraction digits and never removes any. |
| `Numbers.FinishIsRendered` | rslib/i18n/src/lib.rs:411-418 | A dangling `.` is dropped, and otherwise the `.` becomes the alternative separator when there is one. |
| `Numbers.FormatNumberIsRendered` | rslib/i18n/src/lib.rs:389-418 | The string pipeline (format, trim, pad, drop the dot, swap the separator) equals an arithmetic description: sign, whole units, then the separator and the fraction digits when there are any. |
| `Numbers.FormatNumberAsWritten` | rslib/i18n/src/lib.rs:384-422 | (As written.) Without a minimum it never panics, and its only panics are the missing `.` and the subtraction overflow; `Numbers.AsWrittenPanicsOnlyOnUnderflow` gives exactly when it panics. |
| `Numbers.FormatNumber` | rslib/i18n/src/lib.rs:384-422 | (As corrected.) Without a minimum it gives what the code as written gives; `Numbers.FormatNumberIsRendered` equates it with the arithmetic description. |
| `Numbers.AsWrittenPanicsOnlyOnUnderflow` | rslib/i18n/src/lib.rs:402-409 | For the finite values modelled, the renderer as written panics exactly when the minimum is below the number of significant fraction digits, and otherwise agrees with the corrected one. The `expect` on a missing `.` never fires for them. |
| `Numbers.FormatNumberValues` | rslib/i18n/src/lib.rs:384-422 | (As corrected.) Returns a rendering exactly for number values, and it is the arithmetic description with `,` or `.` as separator. |
| `Numbers.RenderedShape` | rslib/i18n/src/lib.rs:389-418 | The output ends in a digit (never in the separator). It contains the separator exactly when there are fraction digits. It has at most two fraction digits, or the minimum when that is more; exactly the minimum when that is two or more; and without a minimum no trailing zero. |
| `Numbers.RenderedRoundTrip` | rslib/i18n/src/lib.rs:389-418 | Reading the rendering back gives the value rendered, for any separator that is neither a digit nor `-`. |
| `Numbers.NumFormatLocale` | rslib/i18n/src/lib.rs:347-357 | `language_REGION` is tried first and wins when known; otherwise the language alone; `None` exactly when neither is known. |
| `Numbers.FirstAvailableNumFormatLocale` | rslib/i18n/src/lib.rs:337-344 | The result is the numeric locale of the first identifier in the list that has one, and `None` exactly when none does. |
| `Numbers.WantCommaAsDecimalSeparator` | rslib/i18n/src/lib.rs:359-367 | A comma is wanted exactly when the first identifier with a known numeric locale has `,` as its decimal separator. The default is `.`. |
| `Numbers.LaterLocalesDoNotMatter` | rslib/i18n/src/lib.rs:337-344 | Once an identifier with a known numeric locale is in the list, appending more identifiers does not change the choice. |
| `Fluent.AddResource` | rslib/i18n/src/lib.rs:107-113 | Adding a resource fails exactly when one of its ids repeats or is already present. Otherwise every message is added and nothing already present changes. |
| `Fluent.AddResourceOverriding` | rslib/i18n/src/lib.rs:115-120 | Overriding adds every id. Keys the resource does not mention are kept, and the last message with an id wins. |
| `Fluent.GetMessage` | rslib/i18n/src/lib.rs:265-269 | A message is found exactly when the bundle has the key. |
| `Fluent.FormatVariable` | rslib/i18n/src/lib.rs:327-335 | (As corrected.) A number argument is rendered by the bundle's own formatter, with `,` when the bundle wants a comma and `.` otherwise. A string argument renders as itself, and a missing one as `{$name}`. |
| `Fluent.FormatterOnlyAffectsNumbers` | rslib/i18n/src/lib.rs:327-335 | Two bundles that differ only in their formatter render a pattern without number arguments alike. |
| `Bundles.GetBundle` | rslib/i18n/src/lib.rs:96-126 | No bundle exactly when the main text fails to parse or repeats an id. The extra text never causes a failure. The bundle keeps its locale list and gets the formatter chosen from it. |
| `Bundles.GetBundleMessages` | rslib/i18n/src/lib.rs:107-120 | A main text that parses without a repeated id always gives a bundle; it holds exactly the ids of the main and parsed extra texts, the main text's messages, except that an extra message with the same id overrides it (its last occurrence wins). |
| `Bundles.BundleLocales` | rslib/i18n/src/lib.rs:150-155 | The locale list is exactly `[lang, en-US]` for a bundle with its own locale and `[en-US]` without one. |
| `Bundles.GetBundleWithExtra` | rslib/i18n/src/lib.rs:129-158 | Fails exactly as `get_bundle` on the text. On success the locale list is `[lang, en-US]` or `[en-US]`, and the formatter is chosen from that list. |
| `I18n.FtlLocalizedText` | rslib/i18n/src/lib.rs:302-313 | A text exists exactly when the locale's remapped set is bundled, and it is that set's module texts joined in order. |
| `I18n.SharedSetsShareText` | rslib/i18n/src/lib.rs:302-304 | Any two English identifiers with region GB or AU get the same text, and every other English identifier gets the template's. |
| `I18n.ResolvePreferredSound` | rslib/i18n/src/lib.rs:201-220 | Every entry of the chain is for one of the parsed preferences, with that locale's text and bundle. |
| `I18n.ResolvePreferredComplete` | rslib/i18n/src/lib.rs:201-220 | A parsed preference is in the chain if and only if its text exists and its bundle builds. |
| `I18n.ResolvedAreUsableOnly` | rslib/i18n/src/lib.rs:201-220 | The entries' locales are exactly the usable preferences, in order, each occurrence kept: a locale named twice gets two entries. |
| `I18n.ResolvePreferredOrdered` | rslib/i18n/src/lib.rs:201-220 | The entries keep the order of the preferences. |
| `I18n.New` | rslib/i18n/src/lib.rs:183-244 | Construction fails (panics) exactly when the template text is missing or its bundle does not build. On success the three parallel lists have equal length, at least one, and end with `en-US`, the template text and the template bundle. |
| `I18n.NewKeepsPreferenceOrder` | rslib/i18n/src/lib.rs:188-228 | The preferred part of the chain is an order-preserving subsequence of the parsed preferences. |
| `I18n.NewEntriesAreBuilt` | rslib/i18n/src/lib.rs:202-215 | Every preferred entry holds its locale's bundled text and the bundle built from it. |
| `I18n.NewKeepsExactlyUsable` | rslib/i18n/src/lib.rs:202-219 | A parsed preference is in the chain exactly when its text exists and its bundle builds, and the preferred part of the chain is the usable preferences in order with repeats kept. |
| `I18n.TemplateOnly` | rslib/i18n/src/lib.rs:179-181 | Fails exactly when the template text is missing or its bundle does not build; otherwise the chain is `en-US` alone, holding the template text, and its one bundle is the template bundle. |
| `I18n.NoUsablePreference` | rslib/i18n/src/lib.rs:201-228 | When no parsed preference has a bundled set whose bundle builds, the chain is `en-US` alone. |
| `I18n.NothingAfterEnglish` | rslib/i18n/src/lib.rs:188-228 | Only the last preferred entry can be English, so no preference after an English one is served. |
| `I18n.FormatterIsPerBundle` | rslib/i18n/src/lib.rs:150-157 | The template bundle's formatter is chosen from `[en-US]` alone, and each preferred bundle's from `[lang, en-US]`. |
| `I18n.Lookup` | rslib/i18n/src/lib.rs:263-288 | When no bundle has a value for the key, the key itself is returned. Otherwise the result is the first such bundle's message, formatted by that bundle. |
| `I18n.Tr` | rslib/i18n/src/lib.rs:263-288 | Along the engine's chain, a key no bundle has a value for comes back unchanged; otherwise the first bundle with a value formats it. |
| `I18n.LookupIgnoresLaterBundles` | rslib/i18n/src/lib.rs:263-284 | Bundles after one that answers are never consulted. |
| `I18n.KeyInTemplateIsAnswered` | rslib/i18n/src/lib.rs:263-288 | A key the template has is always answered by the first bundle of the chain that has it. |
| `I18n.GetKey` | rslib/i18n/src/lib.rs:170-176 | The table entry when both indices are in range, and `invalid-module-or-translation-index` otherwise. |
| `I18n.GetKeyLegacy` | rslib/i18n/src/lib.rs:165-168 | A legacy number never fails: it names a key of the table or the fixed marker (`I18n.LegacyKeyDecomposes` gives which key). |
| `I18n.LegacyKeyDecomposes` | rslib/i18n/src/lib.rs:165-168 | A legacy key `module * 1000 + index`, with the index below 1000, reaches the same entry as the two indices. |
| `I18n.TrLegacy` | rslib/i18n/src/lib.rs:246-261 | The lookup of a legacy number is the lookup of some table key or of the fixed marker (`I18n.LegacyLookup` gives which). |
| `I18n.LegacyLookup` | rslib/i18n/src/lib.rs:246-261 | `tr`, `trn` and `trn2` look up the key a legacy number names, or the fixed marker when it is out of range. |
| `I18n.ResourcesForJs` | rslib/i18n/src/lib.rs:291-297 | The export lists every chain locale in display form (all its subtags joined by `-`), in chain order, and the resource texts unchanged. |
| `LangIds.ToString` | rslib/i18n/src/lib.rs:294 | The display form starts with the language subtag; `LangIds.DisplayRoundTrip` shows it loses nothing. |
| `LangIds.DisplayRoundTrip` | rslib/i18n/src/lib.rs:294 | A well-formed identifier (language, optional script, optional region, variants) reads back from its display form, so the display form loses nothing. |
| `I18n.ExportReadsBack` | rslib/i18n/src/lib.rs:290-297 | Each exported locale string reads back as the chain's identifier at the same position. |
| `I18n.ExportEndsWithTemplate` | rslib/i18n/src/lib.rs:222-228 | The export of a built engine pairs locales with texts and ends with `en-US` and the template text. |
| `Scenarios.SeparatorExamples` | rslib/i18n/src/lib.rs:436-439 | `[en-US]` keeps `.` and `[pl-PL]` wants `,`. |
| `Scenarios.WholeAndTenthExamples` | rslib/i18n/src/lib.rs:448-475 | 1 renders as `1` (the argument at lib.rs:473) and 1.1 as `1.1` (lib.rs:449). |
| `Scenarios.IntegerExample` | rslib/i18n/src/lib.rs:462-463 | 3 renders as `3`. |
| `Scenarios.HundredthExamples` | rslib/i18n/src/lib.rs:478-489 | 2.07 renders as `2,07` with the comma formatter and `2.07` without. |
| `Scenarios.PaddingExamples` | rslib/i18n/src/lib.rs:402-409 | 1.5 with three minimum digits renders as `1.500`, and -0.05 with two as `-0,05` under the comma formatter. |
| `Scenarios.UnderflowExample` | rslib/i18n/src/lib.rs:405 | 1.25 with a minimum of zero fraction digits panics as written and renders as `1.25` when corrected. |
| `Scenarios.UnknownLocaleEngine` | rslib/i18n/src/lib.rs:443-444 | `zz` has no bundled set, so the chain is the template alone. |
| `Scenarios.JapaneseEngine` | rslib/i18n/src/lib.rs:467 | `ja_JP` gives the chain Japanese, then the template. |
| `Scenarios.PolishEngine` | rslib/i18n/src/lib.rs:478 | `pl-PL` gives the chain Polish (with the comma formatter), then the template. |
| `Scenarios.EnglishValidKey` | rslib/i18n/src/lib.rs:445 | `valid-key` gives `a valid key`. |
| `Scenarios.EnglishInvalidKey` | rslib/i18n/src/lib.rs:446 | An unknown key comes back unchanged. |
| `Scenarios.EnglishTwoArgs` | rslib/i18n/src/lib.rs:448-451 | Two arguments are substituted: `two args: 1.1 and 2`. |
| `Scenarios.JapaneseValidKey` | rslib/i18n/src/lib.rs:468 | The Japanese translation answers first. |
| `Scenarios.JapaneseFallsBack` | rslib/i18n/src/lib.rs:469 | A key Japanese lacks is answered by the template. |
| `Scenarios.JapaneseInvalidKey` | rslib/i18n/src/lib.rs:470 | A key no bundle has comes back unchanged. |
| `Scenarios.JapaneseTwoArgs` | rslib/i18n/src/lib.rs:472-475 | The Japanese pattern gives `1と2`. |
| `Scenarios.PolishComma` | rslib/i18n/src/lib.rs:480-483 | The Polish bundle renders 2.07 as `2,07`. |
| `Scenarios.PolishFallbackKeepsDot` | rslib/i18n/src/lib.rs:484-489 | A key that falls back on the template is rendered with `.`: `two args: 1 and 2.07`. |
| `Scenarios.JapaneseExport` | rslib/i18n/src/lib.rs:290-297 | The Japanese engine exports `ja-JP` and `en-US` with their texts. |

## Left out

- Fluent itself: parsing FTL, plural and select expressions, terms,
  attributes, and the bidirectional isolation marks. `set_use_isolating`
  (lib.rs:230-235) only switches those marks off, so it has nothing to act on
  here. Patterns are reduced to text and `$variable` references, and the
  parser is a parameter.
- Fluent's default number formatting: the model only distinguishes numbers,
  which always go through the installed formatter, from other values.
- The f64 `{:.2}` rounding (lib.rs:392-396). Numbers enter already rounded to
  hundredths. Floating-point values that need more digits are not modelled.
- The contents of `num_format`'s locale table and the `unic_langid` parser
  are parameters. So are the generated `STRINGS` and `KEYS_BY_MODULE` tables.
- `Arc<Mutex<…>>`, locking and `Clone`: the engine is an immutable value.
- The `println!` diagnostics, the `Serialize` derive, and the `tr_strs!` and
  `tr_args!` macros.
- The `cfg!(test)` branches: test strings injected as extra text
  (lib.rs:134-148), missing translations allowed (lib.rs:204-210), and
  isolation always off. The non-test behaviour is modelled: the extra text
  is empty and a locale without bundled text is skipped. The unit tests'
  texts instead become the bundled translations of `Scenarios`. Their
  `plural` message is not part of that catalog, because plural selection is
  Fluent's.
- `Numbers.FormatNumberValues` and `Fluent.FormatVariable` use the corrected
  padding, so lookup never fails. In the source, a number argument whose
  `minimumFractionDigits` is below its significant fraction digits makes
  `format_number_values` panic (lib.rs:405), and with it the whole `tr_`
  call. That panic is modelled only by `Numbers.FormatNumberAsWritten`.
- `Numbers.AsWrittenPanicsOnlyOnUnderflow` covers finite values only. For
  NaN or an infinity, `{:.2}` gives `NaN`, `inf` or `-inf`, which hold no
  `.`, so with a minimum set the `expect` at lib.rs:403 panics, and without
  one the text is returned as is. A negative value that rounds to zero
  renders as `-0` in the source; integer hundredths have no negative zero,
  so the model renders `0`.
- `LangIds.DisplayRoundTrip` reads the display form with a reference reader
  for `-`-separated subtags. The reader of `unic_langid` (which also accepts
  `_`, normalises case and orders variants) is a parameter, so the lemma
  assumes identifiers already in its canonical form.
- `tr_` called with no arguments is modelled as an empty argument map.
- The conversion of the generated `LegacyKey` enum to `usize` in `tr` and
  `trn`: the model takes the number itself.
- `LangIds.RemapTemplatesExactly` and `LangIds.RemapPreimages` assume a
  well-formed language subtag (two to eight lower-case letters), which the
  identifier parser guarantees. A malformed "language" such as `zh-TW` would
  pass through unchanged and collide with a set name.
- Which `language_REGION` and language names `num_format` actually knows:
  the locale table is a parameter.
- `I18n.LegacyKeyDecomposes` states the decomposition only for indices below
  1000, as the generated keys use them.

## Findings

| source | as written | input that shows it | evidently intended | confidence | as-written member | corrected member |
|---|---|---|---|---|---|---|
| rslib/i18n/src/lib.rs:405 | The count of zeros to add is the minimum fraction digits minus the fraction digits left after trimming, computed as an unsigned `usize` subtraction. When fewer digits are asked for than remain, it underflows: a panic in a debug build, and a wrapped count that makes `repeat` panic in a release build. | A number 1.25 with `minimumFractionDigits` 0: trimming leaves `1.25`, two fraction digits, and `0 - 2` underflows. | Add zeros only when fewer fraction digits remain than the minimum, so 1.25 renders as `1.25`. | not executed | `Numbers.FormatNumberAsWritten` (`Scenarios.UnderflowExample`, `Numbers.AsWrittenPanicsOnlyOnUnderflow`) | `Numbers.FormatNumber` (`Numbers.FormatNumberIsRendered`, `Numbers.FormatNumberValues`) |
