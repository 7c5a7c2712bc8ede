/** The translation engine (`I18n`, rslib/i18n/src/lib.rs:160-313): the
    fallback chain built from the user's preferred locales, key lookup along
    it, the legacy integer keys and the export for the JavaScript side. */
module I18n {
  import opened Wrappers
  import opened Strings
  import opened LangIds
  import opened Numbers
  import opened Fluent
  import opened Bundles

  /** What construction reads from outside: the language-identifier parser,
      the bundled translations (set name to its module texts, in order), the
      Fluent resource parser and num_format's locale table. */
  datatype Env = Env(
    parseLangId: string -> Option<LangId>,
    strings: map<string, seq<string>>,
    parseResource: ResourceParser,
    numLocales: NumLocaleTable)

  /** `ftl_localized_text`: the concatenated module texts of the set the
      locale is served from, or `None` when no such set is bundled. */
  function FtlLocalizedText(lang: LangId, strings: map<string, seq<string>>): (r: Option<string>)
    ensures r.Some? <==> RemappedLangName(lang) in strings
    ensures r.Some? ==> r.value == Concat(strings[RemappedLangName(lang)])
  {
    var name := RemappedLangName(lang);
    if name in strings then Some(Concat(strings[name])) else None
  }

  /** Locales served from the same set get the same text: British and
      Australian English share one, and plain English reads the template. */
  lemma SharedSetsShareText(strings: map<string, seq<string>>, lang1: LangId, lang2: LangId)
    ensures && lang1.language == "en" && lang1.region in {Some("GB"), Some("AU")}
            && lang2.language == "en" && lang2.region in {Some("GB"), Some("AU")}
            ==> FtlLocalizedText(lang1, strings) == FtlLocalizedText(lang2, strings)
    ensures lang1.language == "en" && lang1.region !in {Some("GB"), Some("AU")} ==>
              FtlLocalizedText(lang1, strings) == FtlLocalizedText(EnUS, strings)
  {
  }

  /** One entry of the chain as construction records it. */
  datatype Slot = Slot(lang: LangId, text: string, bundle: Bundle)

  /** A preferred locale gets an entry exactly when its set is bundled and
      the bundle builds. */
  predicate Usable(lang: LangId, env: Env) {
    match FtlLocalizedText(lang, env.strings)
    case None => false
    case Some(text) => GetBundleWithExtra(text, Some(lang), env.parseResource, env.numLocales).Some?
  }

  /** The entry construction records for a locale it keeps. */
  predicate IsSlotFor(slot: Slot, env: Env) {
    && FtlLocalizedText(slot.lang, env.strings) == Some(slot.text)
    && GetBundleWithExtra(slot.text, Some(slot.lang), env.parseResource, env.numLocales) == Some(slot.bundle)
  }

  function SlotLangs(slots: seq<Slot>): (r: seq<LangId>)
    ensures |r| == |slots| && forall i :: 0 <= i < |slots| ==> r[i] == slots[i].lang
  {
    if |slots| == 0 then [] else [slots[0].lang] + SlotLangs(slots[1..])
  }

  function SlotBundles(slots: seq<Slot>): (r: seq<Bundle>)
    ensures |r| == |slots| && forall i :: 0 <= i < |slots| ==> r[i] == slots[i].bundle
  {
    if |slots| == 0 then [] else [slots[0].bundle] + SlotBundles(slots[1..])
  }

  function SlotTexts(slots: seq<Slot>): (r: seq<string>)
    ensures |r| == |slots| && forall i :: 0 <= i < |slots| ==> r[i] == slots[i].text
  {
    if |slots| == 0 then [] else [slots[0].text] + SlotTexts(slots[1..])
  }

  /** `a` is `b` with some entries left out, order kept. */
  predicate IsSubsequence<T(==)>(a: seq<T>, b: seq<T>)
    decreases |b|
  {
    if |a| == 0 then true
    else if |b| == 0 then false
    else (a[0] == b[0] && IsSubsequence(a[1..], b[1..])) || IsSubsequence(a, b[1..])
  }

  /** The building loop of `I18n::new` (lib.rs:201-220): each locale whose
      text is bundled and whose bundle builds gets an entry, in order. */
  function ResolvePreferred(langs: seq<LangId>, env: Env): (r: seq<Slot>)
    ensures |r| <= |langs|
    decreases |langs|
  {
    if |langs| == 0 then []
    else
      var rest := ResolvePreferred(langs[1..], env);
      match FtlLocalizedText(langs[0], env.strings)
      case None => rest
      case Some(text) =>
        match GetBundleWithExtra(text, Some(langs[0]), env.parseResource, env.numLocales)
        case None => rest
        case Some(bundle) => [Slot(langs[0], text, bundle)] + rest
  }

  /** One step of the building loop: the first locale is kept, with its
      text and bundle, exactly when it is usable. */
  lemma ResolveStep(langs: seq<LangId>, env: Env)
    requires |langs| > 0
    ensures var rest := ResolvePreferred(langs[1..], env);
      var r := ResolvePreferred(langs, env);
      && (Usable(langs[0], env) ==> |r| > 0 && r[0].lang == langs[0] && IsSlotFor(r[0], env) && r[1..] == rest)
      && (!Usable(langs[0], env) ==> r == rest)
  {
  }

  /** Every entry is an entry for one of the preferred locales, recorded with
      that locale's text and bundle. */
  lemma {:induction false} ResolvePreferredSound(langs: seq<LangId>, env: Env)
    ensures var r := ResolvePreferred(langs, env);
      forall i :: 0 <= i < |r| ==> IsSlotFor(r[i], env) && r[i].lang in langs
    decreases |langs|
  {
    if |langs| > 0 {
      ResolvePreferredSound(langs[1..], env);
      ResolveStep(langs, env);
      var r := ResolvePreferred(langs, env);
      var rest := ResolvePreferred(langs[1..], env);
      forall i | 0 <= i < |r| ensures IsSlotFor(r[i], env) && r[i].lang in langs {
        if Usable(langs[0], env) && i > 0 {
          assert r[i] == rest[i - 1];
        }
      }
    }
  }

  /** A preferred locale gets an entry exactly when it is usable. */
  lemma {:induction false} ResolvePreferredComplete(langs: seq<LangId>, env: Env)
    ensures forall l :: l in langs ==> (Usable(l, env) <==> l in SlotLangs(ResolvePreferred(langs, env)))
    decreases |langs|
  {
    if |langs| > 0 {
      ResolvePreferredComplete(langs[1..], env);
      forall l | l in langs ensures Usable(l, env) <==> l in SlotLangs(ResolvePreferred(langs, env)) {
        ResolveCompleteStep(langs, env, l);
      }
    }
  }

  /** The step of `ResolvePreferredComplete` for one locale. */
  lemma ResolveCompleteStep(langs: seq<LangId>, env: Env, l: LangId)
    requires |langs| > 0 && l in langs
    requires l in langs[1..] ==> (Usable(l, env) <==> l in SlotLangs(ResolvePreferred(langs[1..], env)))
    ensures Usable(l, env) <==> l in SlotLangs(ResolvePreferred(langs, env))
  {
    ResolvePreferredSound(langs, env);
    ResolveStep(langs, env);
    var r := ResolvePreferred(langs, env);
    var rest := ResolvePreferred(langs[1..], env);
    if Usable(langs[0], env) {
      assert SlotLangs(r) == [langs[0]] + SlotLangs(rest);
    }
    if l in SlotLangs(r) {
      var i :| 0 <= i < |r| && r[i].lang == l;
      assert IsSlotFor(r[i], env);
    }
    if l != langs[0] {
      assert l in langs[1..];
    }
  }

  /** The preferences that are usable, in order and with repeats: the
      reference the building loop is measured against. */
  function UsableOnly(langs: seq<LangId>, env: Env): seq<LangId>
    decreases |langs|
  {
    if |langs| == 0 then []
    else (if Usable(langs[0], env) then [langs[0]] else []) + UsableOnly(langs[1..], env)
  }

  /** The entries' locales are exactly the usable preferences, in order and
      with repeats kept: a locale named twice gets two entries. */
  lemma {:induction false} ResolvedAreUsableOnly(langs: seq<LangId>, env: Env)
    ensures SlotLangs(ResolvePreferred(langs, env)) == UsableOnly(langs, env)
    decreases |langs|
  {
    if |langs| > 0 {
      ResolvedAreUsableOnly(langs[1..], env);
      ResolveStep(langs, env);
      var r := ResolvePreferred(langs, env);
      var rest := ResolvePreferred(langs[1..], env);
      if Usable(langs[0], env) {
        assert SlotLangs(r) == [langs[0]] + SlotLangs(rest);
      }
    }
  }

  /** The entries keep the order of the preferences. */
  lemma {:induction false} ResolvePreferredOrdered(langs: seq<LangId>, env: Env)
    ensures IsSubsequence(SlotLangs(ResolvePreferred(langs, env)), langs)
    decreases |langs|
  {
    if |langs| > 0 {
      ResolvePreferredOrdered(langs[1..], env);
      ResolveStep(langs, env);
      var r := ResolvePreferred(langs, env);
      var rest := ResolvePreferred(langs[1..], env);
      if Usable(langs[0], env) {
        assert SlotLangs(r)[1..] == SlotLangs(rest);
      }
    }
  }

  /** The engine's state: bundles in preference order with the template
      last, and the locale and resource text of each. */
  datatype Engine = Engine(bundles: seq<Bundle>, langs: seq<LangId>, resourceText: seq<string>)

  /** The template text, which every build reads. */
  function TemplateText(env: Env): Option<string> {
    FtlLocalizedText(EnUS, env.strings)
  }

  /** The three parallel lists of the engine: the entries' bundles, locales
      and texts, then the template's. */
  function Assemble(slots: seq<Slot>, templateText: string, templateBundle: Bundle): (e: Engine)
    ensures |e.langs| == |slots| + 1 && |e.bundles| == |slots| + 1 && |e.resourceText| == |slots| + 1
    ensures e.langs[..|slots|] == SlotLangs(slots)
    ensures e.langs[|slots|] == EnUS && e.resourceText[|slots|] == templateText && e.bundles[|slots|] == templateBundle
    ensures forall i :: 0 <= i < |slots| ==> Slot(e.langs[i], e.resourceText[i], e.bundles[i]) == slots[i]
  {
    var e := Engine(SlotBundles(slots) + [templateBundle], SlotLangs(slots) + [EnUS], SlotTexts(slots) + [templateText]);
    assert e.langs[..|slots|] == SlotLangs(slots);
    e
  }

  lemma AssembledSlots(slots: seq<Slot>, templateText: string, templateBundle: Bundle, env: Env)
    requires forall i :: 0 <= i < |slots| ==> IsSlotFor(slots[i], env)
    ensures var e := Assemble(slots, templateText, templateBundle);
      forall i :: 0 <= i < |slots| ==> IsSlotFor(Slot(e.langs[i], e.resourceText[i], e.bundles[i]), env)
  {
    var e := Assemble(slots, templateText, templateBundle);
    forall i | 0 <= i < |slots|
      ensures IsSlotFor(Slot(e.langs[i], e.resourceText[i], e.bundles[i]), env)
    {
      assert Slot(e.langs[i], e.resourceText[i], e.bundles[i]) == slots[i];
    }
  }

  /** `I18n::new`. `Failure` is the panic of a missing template text or a
      template bundle that does not build. */
  function New(codes: seq<string>, env: Env): (r: Result<Engine, string>)
    ensures r.Failure? <==> TemplateText(env).None?
                            || GetBundleWithExtra(TemplateText(env).value, None, env.parseResource, env.numLocales).None?
    ensures r.Success? ==> var e := r.value; var n := |e.langs|;
      && |e.bundles| == n && |e.resourceText| == n && n >= 1
      && e.langs[n - 1] == EnUS
      && Some(e.resourceText[n - 1]) == TemplateText(env)
      && Some(e.bundles[n - 1]) == GetBundleWithExtra(e.resourceText[n - 1], None, env.parseResource, env.numLocales)
  {
    match TemplateText(env)
    case None => Failure("called `Option::unwrap()` on a `None` value")
    case Some(templateText) =>
      match GetBundleWithExtra(templateText, None, env.parseResource, env.numLocales)
      case None => Failure("called `Option::unwrap()` on a `None` value")
      case Some(templateBundle) =>
        Success(Assemble(ResolvePreferred(ParsePreferences(codes, env.parseLangId), env), templateText, templateBundle))
  }

  /** A constructed engine is the assembly of the resolved preferences and
      the template entry. */
  lemma NewIsAssembled(codes: seq<string>, env: Env)
    requires New(codes, env).Success?
    ensures var slots := ResolvePreferred(ParsePreferences(codes, env.parseLangId), env);
      && |New(codes, env).value.langs| == |slots| + 1
      && New(codes, env).value == Assemble(slots, TemplateText(env).value,
           GetBundleWithExtra(TemplateText(env).value, None, env.parseResource, env.numLocales).value)
  {
  }

  /** The preferred entries of the chain keep the order of the parsed
      preferences, with some left out. */
  lemma NewKeepsPreferenceOrder(codes: seq<string>, env: Env)
    requires New(codes, env).Success?
    ensures var e := New(codes, env).value;
      IsSubsequence(e.langs[..|e.langs| - 1], ParsePreferences(codes, env.parseLangId))
  {
    var preferred := ParsePreferences(codes, env.parseLangId);
    NewIsAssembled(codes, env);
    ResolvePreferredOrdered(preferred, env);
  }

  /** Every preferred entry holds its locale's bundled text and the bundle
      built from it. */
  lemma NewEntriesAreBuilt(codes: seq<string>, env: Env)
    requires New(codes, env).Success?
    ensures var e := New(codes, env).value;
      forall i :: 0 <= i < |e.langs| - 1 ==> IsSlotFor(Slot(e.langs[i], e.resourceText[i], e.bundles[i]), env)
  {
    var preferred := ParsePreferences(codes, env.parseLangId);
    var slots := ResolvePreferred(preferred, env);
    NewIsAssembled(codes, env);
    ResolvePreferredSound(preferred, env);
    AssembledSlots(slots, TemplateText(env).value,
      GetBundleWithExtra(TemplateText(env).value, None, env.parseResource, env.numLocales).value, env);
  }

  /** A parsed preference is in the chain exactly when its set is bundled
      and its bundle builds; the preferred part of the chain is the usable
      preferences in order, repeats included. */
  lemma NewKeepsExactlyUsable(codes: seq<string>, env: Env)
    requires New(codes, env).Success?
    ensures var e := New(codes, env).value;
      forall l :: l in ParsePreferences(codes, env.parseLangId) ==> (Usable(l, env) <==> l in e.langs[..|e.langs| - 1])
    ensures var e := New(codes, env).value;
      e.langs[..|e.langs| - 1] == UsableOnly(ParsePreferences(codes, env.parseLangId), env)
  {
    var preferred := ParsePreferences(codes, env.parseLangId);
    NewIsAssembled(codes, env);
    ResolvePreferredComplete(preferred, env);
    ResolvedAreUsableOnly(preferred, env);
  }

  /** When no parsed preference is usable, the chain is the template alone,
      as with no preferences at all. */
  lemma NoUsablePreference(codes: seq<string>, env: Env)
    requires New(codes, env).Success?
    ensures (forall l :: l in ParsePreferences(codes, env.parseLangId) ==> !Usable(l, env)) ==>
              New(codes, env).value.langs == [EnUS]
  {
    var preferred := ParsePreferences(codes, env.parseLangId);
    var slots := ResolvePreferred(preferred, env);
    NewIsAssembled(codes, env);
    ResolvePreferredSound(preferred, env);
    if |slots| > 0 {
      assert IsSlotFor(slots[0], env) && slots[0].lang in preferred;
      assert Usable(slots[0].lang, env);
    } else {
      assert New(codes, env).value.langs[..0] == [];
    }
  }

  /** `I18n::template_only`: the engine built with no preferences. It
      panics exactly as `New` does, and otherwise holds the template alone:
      its locale, its text and its bundle. */
  function TemplateOnly(env: Env): (r: Result<Engine, string>)
    ensures r.Failure? <==> TemplateText(env).None?
                            || GetBundleWithExtra(TemplateText(env).value, None, env.parseResource, env.numLocales).None?
    ensures r.Success? ==> r.value.langs == [EnUS] && |r.value.resourceText| == 1
                           && TemplateText(env) == Some(r.value.resourceText[0])
                           && r.value.bundles == [GetBundleWithExtra(TemplateText(env).value, None, env.parseResource, env.numLocales).value]
  {
    var r := New([], env);
    if r.Success? then
      NewIsAssembled([], env);
      assert ResolvePreferred(ParsePreferences([], env.parseLangId), env) == [];
      assert r.value.langs == r.value.langs[..0] + [EnUS];
      assert r.value.bundles == SlotBundles([]) + [r.value.bundles[0]];
      r
    else r
  }

  /** Subsequences keep the property that only the last entry may be English. */
  lemma {:induction false} SubsequenceKeepsEnglishLast(a: seq<LangId>, b: seq<LangId>)
    requires IsSubsequence(a, b)
    requires forall j :: 0 <= j < |b| - 1 ==> b[j].language != "en"
    ensures forall i :: 0 <= i < |a| - 1 ==> a[i].language != "en"
    decreases |b|
  {
    if |a| > 1 {
      if a[0] == b[0] && IsSubsequence(a[1..], b[1..]) {
        SubsequenceKeepsEnglishLast(a[1..], b[1..]);
        assert |b| > 1;
        forall i | 0 <= i < |a| - 1 ensures a[i].language != "en" {
          if i > 0 {
            assert a[i] == a[1..][i - 1];
          }
        }
      } else {
        SubsequenceKeepsEnglishLast(a, b[1..]);
      }
    }
  }

  /** Once an English locale is preferred, no later preference gets a
      bundle: only the last preferred entry of the chain can be English. */
  lemma NothingAfterEnglish(codes: seq<string>, env: Env)
    requires New(codes, env).Success?
    ensures var e := New(codes, env).value;
      forall i :: 0 <= i < |e.langs| - 2 ==> e.langs[i].language != "en"
  {
    var e := New(codes, env).value;
    var pre := e.langs[..|e.langs| - 1];
    NewKeepsPreferenceOrder(codes, env);
    SubsequenceKeepsEnglishLast(pre, ParsePreferences(codes, env.parseLangId));
    forall i | 0 <= i < |e.langs| - 2 ensures e.langs[i].language != "en" {
      assert e.langs[i] == pre[i];
    }
  }

  /** Each bundle picks its number formatter from its own locale list: a
      preferred locale's from `[lang, en-US]`, the template's from `[en-US]`
      alone, whatever the preferred locales use. */
  lemma FormatterIsPerBundle(codes: seq<string>, env: Env)
    requires New(codes, env).Success?
    ensures var e := New(codes, env).value; var n := |e.langs|;
      && e.bundles[n - 1].commaFormatter == WantCommaAsDecimalSeparator([EnUS], env.numLocales)
      && forall i :: 0 <= i < n - 1 ==>
           e.bundles[i].commaFormatter == WantCommaAsDecimalSeparator([e.langs[i], EnUS], env.numLocales)
  {
    var e := New(codes, env).value;
    NewEntriesAreBuilt(codes, env);
    forall i | 0 <= i < |e.langs| - 1
      ensures e.bundles[i].commaFormatter == WantCommaAsDecimalSeparator([e.langs[i], EnUS], env.numLocales)
    {
      assert IsSlotFor(Slot(e.langs[i], e.resourceText[i], e.bundles[i]), env);
      assert BundleLocales(Some(e.langs[i])) == [e.langs[i], EnUS];
    }
  }

  // ---------------------------------------------------------------------
  // Lookup

  /** A bundle can answer for `key`: it has the message and the message has a value. */
  predicate Translates(bundle: Bundle, key: string) {
    key in bundle.messages && bundle.messages[key].value.Some?
  }

  /** Position `i` holds the first bundle that can answer for `key`. */
  predicate FirstTranslating(bundles: seq<Bundle>, key: string, i: int) {
    && 0 <= i < |bundles|
    && Translates(bundles[i], key)
    && forall j :: 0 <= j < i ==> !Translates(bundles[j], key)
  }

  /** The loop of `tr_` (lib.rs:263-288) over a list of bundles: the first
      bundle with a value for the key formats it; with none, the key itself. */
  function Lookup(bundles: seq<Bundle>, key: string, args: Args): (r: string)
    ensures (forall i :: 0 <= i < |bundles| ==> !Translates(bundles[i], key)) ==> r == key
    ensures forall i :: FirstTranslating(bundles, key, i) ==>
              r == FormatPattern(bundles[i], bundles[i].messages[key].value.value, args)
    decreases |bundles|
  {
    if |bundles| == 0 then key
    else
      match GetMessage(bundles[0], key)
      // the first bundle lacks the message: ask the rest
      case None => LookupRest(bundles, key, args)
      case Some(msg) =>
        match msg.value
        // the message has attributes only: ask the rest
        case None => LookupRest(bundles, key, args)
        case Some(pattern) =>
          assert forall i :: FirstTranslating(bundles, key, i) ==> i == 0;
          FormatPattern(bundles[0], pattern, args)
  }

  /** The lookup continuing past a first bundle that cannot answer. */
  function LookupRest(bundles: seq<Bundle>, key: string, args: Args): (r: string)
    requires |bundles| > 0 && !Translates(bundles[0], key)
    ensures (forall i :: 0 <= i < |bundles| ==> !Translates(bundles[i], key)) ==> r == key
    ensures forall i :: FirstTranslating(bundles, key, i) ==>
              r == FormatPattern(bundles[i], bundles[i].messages[key].value.value, args)
    decreases |bundles|, 0
  {
    var r := Lookup(bundles[1..], key, args);
    assert forall i :: 1 <= i < |bundles| ==> bundles[i] == bundles[1..][i - 1];
    assert forall i :: FirstTranslating(bundles, key, i) ==> FirstTranslating(bundles[1..], key, i - 1);
    r
  }

  /** `tr_`: lookup along the engine's chain. Arguments given as `None` are
      an empty map. */
  function Tr(engine: Engine, key: string, args: Args): (r: string)
    ensures (forall i :: 0 <= i < |engine.bundles| ==> !Translates(engine.bundles[i], key)) ==> r == key
    ensures forall i :: FirstTranslating(engine.bundles, key, i) ==>
              r == FormatPattern(engine.bundles[i], engine.bundles[i].messages[key].value.value, args)
  {
    Lookup(engine.bundles, key, args)
  }

  /** Later bundles are never consulted once one can answer. */
  lemma LookupIgnoresLaterBundles(bundles: seq<Bundle>, more: seq<Bundle>, key: string, args: Args)
    requires exists i :: 0 <= i < |bundles| && Translates(bundles[i], key)
    ensures Lookup(bundles + more, key, args) == Lookup(bundles, key, args)
  {
    FirstTranslatingExists(bundles, key);
    var i :| FirstTranslating(bundles, key, i);
    assert forall j :: 0 <= j <= i ==> (bundles + more)[j] == bundles[j];
    assert FirstTranslating(bundles + more, key, i);
  }

  /** A key that the template can answer never comes back as the bare key
      through the fallback: some bundle of the chain formats it. */
  lemma KeyInTemplateIsAnswered(codes: seq<string>, env: Env, key: string, args: Args)
    requires New(codes, env).Success?
    requires var e := New(codes, env).value; Translates(e.bundles[|e.bundles| - 1], key)
    ensures var e := New(codes, env).value;
      exists i :: FirstTranslating(e.bundles, key, i)
               && Tr(e, key, args) == FormatPattern(e.bundles[i], e.bundles[i].messages[key].value.value, args)
  {
    var e := New(codes, env).value;
    FirstTranslatingExists(e.bundles, key);
  }

  lemma {:induction false} FirstTranslatingExists(bundles: seq<Bundle>, key: string)
    requires exists i :: 0 <= i < |bundles| && Translates(bundles[i], key)
    ensures exists i :: FirstTranslating(bundles, key, i)
    decreases |bundles|
  {
    if !Translates(bundles[0], key) {
      var i :| 0 <= i < |bundles| && Translates(bundles[i], key);
      assert Translates(bundles[1..][i - 1], key);
      FirstTranslatingExists(bundles[1..], key);
      var k :| FirstTranslating(bundles[1..], key, k);
      assert FirstTranslating(bundles, key, k + 1) by {
        forall j | 0 <= j < k + 1 ensures !Translates(bundles[j], key) {
          if j > 0 {
            assert bundles[j] == bundles[1..][j - 1];
          }
        }
      }
    } else {
      assert FirstTranslating(bundles, key, 0);
    }
  }

  // ---------------------------------------------------------------------
  // Legacy integer keys (lib.rs:165-176, 246-261)

  const InvalidKey: string := "invalid-module-or-translation-index"

  /** `get_key`: the key at the two indices of the generated table, or a
      fixed marker when either index is out of range. */
  function GetKey(keysByModule: seq<seq<string>>, moduleIdx: nat, translationIdx: nat): (r: string)
    ensures (moduleIdx < |keysByModule| && translationIdx < |keysByModule[moduleIdx]|)
      ==> r == keysByModule[moduleIdx][translationIdx]
    ensures !(moduleIdx < |keysByModule| && translationIdx < |keysByModule[moduleIdx]|)
      ==> r == InvalidKey
  {
    if moduleIdx < |keysByModule| && translationIdx < |keysByModule[moduleIdx]| then
      keysByModule[moduleIdx][translationIdx]
    else InvalidKey
  }

  /** `get_key_legacy`: a legacy key is `module * 1000 + index`. */
  function GetKeyLegacy(keysByModule: seq<seq<string>>, val: nat): (r: string)
    ensures r == InvalidKey
            || exists m, i :: 0 <= m < |keysByModule| && 0 <= i < |keysByModule[m]| && r == keysByModule[m][i]
  {
    GetKey(keysByModule, val / 1000, val % 1000)
  }

  /** Encoding a module and an index below 1000 as a legacy key and
      decoding it reaches the same table entry. */
  lemma LegacyKeyDecomposes(keysByModule: seq<seq<string>>, moduleIdx: nat, translationIdx: nat)
    requires translationIdx < 1000
    ensures GetKeyLegacy(keysByModule, moduleIdx * 1000 + translationIdx) == GetKey(keysByModule, moduleIdx, translationIdx)
  {
    ThousandsSplit(moduleIdx, translationIdx);
  }

  lemma ThousandsSplit(high: nat, low: nat)
    requires low < 1000
    ensures (high * 1000 + low) / 1000 == high && (high * 1000 + low) % 1000 == low
  {
  }

  /** `tr`, `trn` and `trn2`: lookup of the key a legacy number names. */
  function TrLegacy(engine: Engine, keysByModule: seq<seq<string>>, val: nat, args: Args): (r: string)
    ensures r == Tr(engine, InvalidKey, args)
            || exists m, i :: 0 <= m < |keysByModule| && 0 <= i < |keysByModule[m]|
                              && r == Tr(engine, keysByModule[m][i], args)
  {
    Tr(engine, GetKeyLegacy(keysByModule, val), args)
  }

  /** A legacy number in range is looked up as the key it names; one out of
      range is looked up as the fixed marker. */
  lemma LegacyLookup(engine: Engine, keysByModule: seq<seq<string>>, moduleIdx: nat, translationIdx: nat, args: Args)
    requires translationIdx < 1000
    ensures moduleIdx < |keysByModule| && translationIdx < |keysByModule[moduleIdx]| ==>
      TrLegacy(engine, keysByModule, moduleIdx * 1000 + translationIdx, args)
        == Tr(engine, keysByModule[moduleIdx][translationIdx], args)
    ensures !(moduleIdx < |keysByModule| && translationIdx < |keysByModule[moduleIdx]|) ==>
      TrLegacy(engine, keysByModule, moduleIdx * 1000 + translationIdx, args) == Tr(engine, InvalidKey, args)
  {
    LegacyKeyDecomposes(keysByModule, moduleIdx, translationIdx);
  }

  // ---------------------------------------------------------------------
  // Export for the JavaScript side (lib.rs:290-297)

  datatype ResourcesForJavascript = ResourcesForJavascript(langs: seq<string>, resources: seq<string>)

  /** `resources_for_js`: each chain locale in display form, and the
      resource texts, in chain order. */
  function ResourcesForJs(engine: Engine): (r: ResourcesForJavascript)
    ensures |r.langs| == |engine.langs|
    ensures forall i :: 0 <= i < |engine.langs| ==> r.langs[i] == ToString(engine.langs[i])
    ensures r.resources == engine.resourceText
  {
    ResourcesForJavascript(DisplayAll(engine.langs), engine.resourceText)
  }

  function DisplayAll(langs: seq<LangId>): (r: seq<string>)
    ensures |r| == |langs| && forall i :: 0 <= i < |langs| ==> r[i] == ToString(langs[i])
  {
    if |langs| == 0 then [] else [ToString(langs[0])] + DisplayAll(langs[1..])
  }

  /** The export loses nothing: each exported locale reads back as the
      chain's identifier, whenever the identifiers are well formed. */
  lemma ExportReadsBack(engine: Engine)
    requires forall i :: 0 <= i < |engine.langs| ==> WellFormed(engine.langs[i])
    ensures var x := ResourcesForJs(engine);
      forall i :: 0 <= i < |x.langs| ==> ParseDisplay(x.langs[i]) == engine.langs[i]
  {
    forall i | 0 <= i < |engine.langs| ensures ParseDisplay(ToString(engine.langs[i])) == engine.langs[i] {
      DisplayRoundTrip(engine.langs[i]);
    }
  }

  /** The export of a constructed engine pairs each locale with its text and
      ends with `en-US` and the template text. */
  lemma ExportEndsWithTemplate(codes: seq<string>, env: Env)
    requires New(codes, env).Success?
    ensures var x := ResourcesForJs(New(codes, env).value);
      && |x.langs| == |x.resources| >= 1
      && x.langs[|x.langs| - 1] == "en-US"
      && Some(x.resources[|x.resources| - 1]) == TemplateText(env)
  {
    var e := New(codes, env).value;
    var n := |e.langs|;
    assert e.langs[n - 1] == EnUS;
    var x := ResourcesForJs(e);
    assert x.langs[n - 1] == ToString(EnUS);
    EnUSDisplay();
  }
}
