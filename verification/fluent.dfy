/** A stand-in for the parts of the Fluent message engine the translation
    code drives: resources as lists of messages, bundles as key-to-message
    maps, and formatting reduced to text and variable references. The
    resource parser stays abstract: it is a parameter wherever it is used. */
module Fluent {
  import opened Wrappers
  import opened Strings
  import opened LangIds
  import opened Numbers

  /** A pattern piece: literal text, or a reference to the argument `$name`. */
  datatype PatternElement = Text(text: string) | Variable(name: string)

  type Pattern = seq<PatternElement>

  /** A message; one that has only attributes has no value. */
  datatype Message = Message(value: Option<Pattern>)

  datatype Entry = Entry(id: string, message: Message)

  /** A parsed resource: its messages in source order. */
  type Resource = seq<Entry>

  /** `FluentResource::try_new`, provided by the Fluent engine: `None` is a parse error. */
  type ResourceParser = string -> Option<Resource>

  type Args = map<string, FluentValue>

  /** A bundle: the locales it was created for, its messages, and whether its
      number formatter writes a comma instead of a `.`. */
  datatype Bundle = Bundle(locales: seq<LangId>, messages: map<string, Message>, commaFormatter: bool)

  function Ids(res: Resource): set<string> {
    set i | 0 <= i < |res| :: res[i].id
  }

  predicate HasDuplicateIds(res: Resource) {
    exists i, j :: 0 <= i < j < |res| && res[i].id == res[j].id
  }

  /** `FluentBundle::add_resource`: fails when a message id is already in the
      bundle or occurs twice in the resource; otherwise adds every message. */
  function AddResource(messages: map<string, Message>, res: Resource): (r: Option<map<string, Message>>)
    ensures r.None? <==> HasDuplicateIds(res) || exists i :: 0 <= i < |res| && res[i].id in messages
    ensures r.Some? ==> r.value.Keys == messages.Keys + Ids(res)
    ensures r.Some? ==> forall k :: k in messages ==> r.value[k] == messages[k]
    ensures r.Some? ==> forall i :: 0 <= i < |res| ==> r.value[res[i].id] == res[i].message
    decreases |res|
  {
    if |res| == 0 then Some(messages)
    else if res[0].id in messages then None
    else
      var r := AddResource(messages[res[0].id := res[0].message], res[1..]);
      AddResourceStep(messages, res, r);
      r
  }

  /** Adding the first message and then the rest is adding them all. */
  lemma AddResourceStep(messages: map<string, Message>, res: Resource, r: Option<map<string, Message>>)
    requires |res| > 0 && res[0].id !in messages
    requires var m' := messages[res[0].id := res[0].message];
      && (r.None? <==> HasDuplicateIds(res[1..]) || exists i :: 0 <= i < |res[1..]| && res[1..][i].id in m')
      && (r.Some? ==> r.value.Keys == m'.Keys + Ids(res[1..]))
      && (r.Some? ==> forall k :: k in m' ==> r.value[k] == m'[k])
      && (r.Some? ==> forall i :: 0 <= i < |res[1..]| ==> r.value[res[1..][i].id] == res[1..][i].message)
    ensures r.None? <==> HasDuplicateIds(res) || exists i :: 0 <= i < |res| && res[i].id in messages
    ensures r.Some? ==> r.value.Keys == messages.Keys + Ids(res)
    ensures r.Some? ==> forall k :: k in messages ==> r.value[k] == messages[k]
    ensures r.Some? ==> forall i :: 0 <= i < |res| ==> r.value[res[i].id] == res[i].message
  {
    var rest := res[1..];
    assert Ids(res) == {res[0].id} + Ids(rest) by {
      forall k | k in Ids(res) ensures k in {res[0].id} + Ids(rest) {
        var i :| 0 <= i < |res| && res[i].id == k;
        if i > 0 {
          assert rest[i - 1].id == k;
        }
      }
      forall k | k in Ids(rest) ensures k in Ids(res) {
        var i :| 0 <= i < |rest| && rest[i].id == k;
        assert res[i + 1].id == k;
      }
    }
    if HasDuplicateIds(res) && !HasDuplicateIds(rest) {
      var i, j :| 0 <= i < j < |res| && res[i].id == res[j].id;
      if i == 0 {
        assert rest[j - 1].id in messages[res[0].id := res[0].message];
      } else {
        assert rest[i - 1].id == rest[j - 1].id;
      }
    }
    if HasDuplicateIds(rest) {
      var i, j :| 0 <= i < j < |rest| && rest[i].id == rest[j].id;
      assert res[i + 1].id == res[j + 1].id;
    }
    if exists i :: 0 <= i < |rest| && rest[i].id in messages[res[0].id := res[0].message] {
      var i :| 0 <= i < |rest| && rest[i].id in messages[res[0].id := res[0].message];
      if rest[i].id == res[0].id {
        assert res[0].id == res[i + 1].id;
      } else {
        assert res[i + 1].id in messages;
      }
    }
    if exists i :: 0 <= i < |res| && res[i].id in messages {
      var i :| 0 <= i < |res| && res[i].id in messages;
      assert i > 0 && rest[i - 1].id in messages;
    }
    if r.Some? {
      forall i | 0 <= i < |res| ensures r.value[res[i].id] == res[i].message {
        if i > 0 {
          assert res[i] == rest[i - 1];
        }
      }
    }
  }

  /** Position `i` holds the last message of `res` with its id. */
  predicate LastWithId(res: Resource, i: int) {
    0 <= i < |res| && forall j :: i < j < |res| ==> res[j].id != res[i].id
  }

  /** `FluentBundle::add_resource_overriding`: every message is added, a
      later message replacing an earlier one with the same id. */
  function AddResourceOverriding(messages: map<string, Message>, res: Resource): (r: map<string, Message>)
    ensures r.Keys == messages.Keys + Ids(res)
    ensures forall k :: k in messages && k !in Ids(res) ==> r[k] == messages[k]
    ensures forall i :: LastWithId(res, i) ==> r[res[i].id] == res[i].message
    decreases |res|
  {
    if |res| == 0 then messages
    else
      var r := AddResourceOverriding(messages[res[0].id := res[0].message], res[1..]);
      OverridingStep(messages, res, r);
      r
  }

  lemma OverridingStep(messages: map<string, Message>, res: Resource, r: map<string, Message>)
    requires |res| > 0
    requires var m' := messages[res[0].id := res[0].message];
      && r.Keys == m'.Keys + Ids(res[1..])
      && (forall k :: k in m' && k !in Ids(res[1..]) ==> r[k] == m'[k])
      && (forall i :: LastWithId(res[1..], i) ==> r[res[1..][i].id] == res[1..][i].message)
    ensures r.Keys == messages.Keys + Ids(res)
    ensures forall k :: k in messages && k !in Ids(res) ==> r[k] == messages[k]
    ensures forall i :: LastWithId(res, i) ==> r[res[i].id] == res[i].message
  {
    var rest := res[1..];
    assert Ids(res) == {res[0].id} + Ids(rest) by {
      forall k | k in Ids(res) ensures k in {res[0].id} + Ids(rest) {
        var i :| 0 <= i < |res| && res[i].id == k;
        if i > 0 {
          assert rest[i - 1].id == k;
        }
      }
      forall k | k in Ids(rest) ensures k in Ids(res) {
        var i :| 0 <= i < |rest| && rest[i].id == k;
        assert res[i + 1].id == k;
      }
    }
    forall i | LastWithId(res, i) ensures r[res[i].id] == res[i].message {
      if i > 0 {
        assert LastWithId(rest, i - 1) by {
          forall j | i - 1 < j < |rest| ensures rest[j].id != rest[i - 1].id {
            assert rest[j] == res[j + 1];
          }
        }
      } else {
        assert res[0].id !in Ids(rest);
      }
    }
  }

  /** `FluentBundle::get_message`. */
  function GetMessage(bundle: Bundle, id: string): (r: Option<Message>)
    ensures r.Some? <==> id in bundle.messages
    ensures r.Some? ==> r.value == bundle.messages[id]
  {
    if id in bundle.messages then Some(bundle.messages[id]) else None
  }

  /** How a placeable `{$name}` renders: a number through the bundle's
      formatter, a string as itself, and a missing argument as `{$name}`
      (Fluent reports an error for it and carries on). */
  function FormatVariable(bundle: Bundle, name: string, args: Args): (r: string)
    ensures name !in args ==> r == "{$" + name + "}"
    ensures name in args && args[name].StringValue? ==> r == args[name].text
    ensures name in args && args[name].NumberValue? ==>
              r == Rendered(args[name].number, if bundle.commaFormatter then "," else ".")
  {
    if name !in args then "{$" + name + "}"
    else
      var sep := if bundle.commaFormatter then Some(",") else None;
      match FormatNumberValues(args[name], sep)
      case Some(text) => text
      case None => args[name].text
  }

  /** `FluentBundle::format_pattern`: the pieces of the pattern, rendered in order. */
  function FormatPattern(bundle: Bundle, pattern: Pattern, args: Args): string
    decreases |pattern|
  {
    if |pattern| == 0 then ""
    else FormatElement(bundle, pattern[0], args) + FormatPattern(bundle, pattern[1..], args)
  }

  /** Text renders as itself, a placeable as its argument's value. */
  function FormatElement(bundle: Bundle, element: PatternElement, args: Args): string {
    match element
    case Text(text) => text
    case Variable(name) => FormatVariable(bundle, name, args)
  }

  /** Formatting works piece by piece: a pattern made of two parts renders
      as the two renderings side by side. */
  lemma {:induction false} FormatPatternConcat(bundle: Bundle, p1: Pattern, p2: Pattern, args: Args)
    ensures FormatPattern(bundle, p1 + p2, args) == FormatPattern(bundle, p1, args) + FormatPattern(bundle, p2, args)
    decreases |p1|
  {
    if |p1| > 0 {
      assert (p1 + p2)[0] == p1[0];
      assert (p1 + p2)[1..] == p1[1..] + p2;
      FormatPatternConcat(bundle, p1[1..], p2, args);
      var head := FormatElement(bundle, p1[0], args);
      assert head + (FormatPattern(bundle, p1[1..], args) + FormatPattern(bundle, p2, args))
          == (head + FormatPattern(bundle, p1[1..], args)) + FormatPattern(bundle, p2, args);
    } else {
      assert p1 + p2 == p2;
    }
  }

  /** A pattern refers to no number argument. */
  predicate NoNumberArgs(pattern: Pattern, args: Args) {
    forall i :: 0 <= i < |pattern| && pattern[i].Variable? && pattern[i].name in args
      ==> !args[pattern[i].name].NumberValue?
  }

  /** The formatter only touches numbers: two bundles that differ only in
      their formatter render a pattern without number arguments alike. */
  lemma {:induction false} FormatterOnlyAffectsNumbers(b1: Bundle, b2: Bundle, pattern: Pattern, args: Args)
    requires NoNumberArgs(pattern, args)
    ensures FormatPattern(b1, pattern, args) == FormatPattern(b2, pattern, args)
    decreases |pattern|
  {
    if |pattern| > 0 {
      assert NoNumberArgs(pattern[1..], args) by {
        forall i | 0 <= i < |pattern[1..]| && pattern[1..][i].Variable? && pattern[1..][i].name in args
          ensures !args[pattern[1..][i].name].NumberValue?
        {
          assert pattern[1..][i] == pattern[i + 1];
        }
      }
      FormatterOnlyAffectsNumbers(b1, b2, pattern[1..], args);
      if pattern[0].Variable? && pattern[0].name in args {
        assert !args[pattern[0].name].NumberValue?;
      }
    }
  }
}
