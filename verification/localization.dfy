/** The localization resolver: key lookup in the current language's table
    with fall-back to the key itself, `{{param}}` substitution, and the
    current-language selector. The selector is threaded explicitly as a
    `Locale` value instead of living in module-level state. */
module Localization {
  import opened Common
  import opened Strings
  import EnglishTable
  import TurkishTable

  /** `translations[lang][key]` for `translations = { en, tr }`: the entry of
      the named language's table, `None` for a language without a table or a
      key the table does not define. */
  function Translation(lang: string, key: string): Option<string> {
    if lang == "en" then EnglishTable.En(key)
    else if lang == "tr" then TurkishTable.Tr(key)
    else None
  }

  /** Interpolation parameters, in the order a `for...in` loop visits them. */
  type Params = seq<(string, string)>

  const DefaultLanguage: string := "en"

  /** `translations[lang]` is defined. */
  predicate Supported(lang: string) {
    lang == "en" || lang == "tr"
  }

  /** The current language and the document's `lang` attribute. */
  datatype Locale = Locale(current: string, documentLang: string)

  /** The selector always names a table. */
  predicate Valid(l: Locale) {
    Supported(l.current)
  }

  /** Module initialisation: the document's language, or `"en"` when it is
      empty or has no table. The attribute itself is not rewritten. */
  function Init(documentLang: string): (l: Locale)
    ensures Valid(l)
    ensures l.documentLang == documentLang
    ensures Supported(documentLang) ==> l.current == documentLang
    ensures !Supported(documentLang) ==> l.current == DefaultLanguage
  {
    var candidate := if documentLang != "" then documentLang else DefaultLanguage;
    Locale(if Supported(candidate) then candidate else DefaultLanguage, documentLang)
  }

  /** `setLanguage(lang)`: a supported language becomes current and is written
      to the document; any other request leaves everything as it was. */
  function SetLanguage(l: Locale, lang: string): (r: Locale)
    ensures Supported(lang) ==> r.current == lang && r.documentLang == lang
    ensures !Supported(lang) ==> r == l
    ensures Valid(l) ==> Valid(r)
  {
    if Supported(lang) then Locale(lang, lang) else l
  }

  /** The current table has an entry for `key` that is not the empty string
      (the empty string is falsy and would be skipped by `||`). */
  predicate HasEntry(l: Locale, key: string) {
    && Supported(l.current)
    && Translation(l.current, key).Some?
    && Translation(l.current, key).value != ""
  }

  function Entry(l: Locale, key: string): string
    requires HasEntry(l, key)
  {
    Translation(l.current, key).value
  }

  /** `translations[currentLanguage]?.[key] || key`: the entry when the
      current table has a non-empty one, otherwise the key. */
  function Lookup(l: Locale, key: string): string {
    if HasEntry(l, key) then Entry(l, key) else key
  }

  /** The token a parameter named `name` replaces. */
  function Placeholder(name: string): (p: string)
    ensures p != [] && p[0] == '{'
  {
    "{{" + name + "}}"
  }

  /** For each parameter in order, every `{{name}}` of the current text is
      replaced by its value. */
  function Substitute(text: string, params: Params): string
    decreases |params|
  {
    if params == [] then text
    else Substitute(ReplaceAll(text, Placeholder(params[0].0), params[0].1), params[1..])
  }

  /** `t(key, params)`. */
  function Translate(l: Locale, key: string, params: Params): string {
    Substitute(Lookup(l, key), params)
  }


  // ---------------------------------------------------------------------
  // Properties of the resolver

  /** Without parameters, a present non-empty entry is returned as is. */
  lemma TranslateEntry(l: Locale, key: string)
    requires HasEntry(l, key)
    ensures Translate(l, key, []) == Entry(l, key)
  {
  }

  /** Without parameters, a missing or empty entry yields the key itself. */
  lemma TranslateMissing(l: Locale, key: string)
    requires !HasEntry(l, key)
    ensures Translate(l, key, []) == key
  {
  }

  /** Parameters whose placeholders do not occur in the text change nothing. */
  lemma {:induction false} SubstituteWithoutPlaceholders(text: string, params: Params)
    requires forall k | 0 <= k < |params| :: Count(text, Placeholder(params[k].0)) == 0
    ensures Substitute(text, params) == text
    decreases |params|
  {
    if params != [] {
      ReplaceAllAbsent(text, Placeholder(params[0].0), params[0].1);
      assert forall k | 0 <= k < |params[1..]| :: params[1..][k] == params[k + 1];
      SubstituteWithoutPlaceholders(text, params[1..]);
    }
  }

  /** The characters of a token placed in a text are the token's. */
  lemma TokenChar(a: string, tok: string, b: string, k: int)
    requires 0 <= k < |tok|
    ensures (a + tok + b)[|a| + k] == tok[k]
  {
  }

  /** The characters of a placeholder: `{{`, the name, then `}}`. */
  lemma PlaceholderChars(q: string, k: int)
    requires 0 <= k < |Placeholder(q)|
    ensures Placeholder(q)[k] == (if k < 2 then '{' else if k < 2 + |q| then q[k - 2] else '}')
  {
  }

  /** Two placeholders of different names, both without `}`, never match
      at the same spot: they part at the first `}` or at the first place
      their names differ. */
  lemma SameSpotDiffers(a: string, q: string, b: string, p: string)
    requires '}' !in q && '}' !in p && p != q
    ensures !MatchAt(a + Placeholder(q) + b, Placeholder(p), |a|)
  {
    var t, tok, pat := a + Placeholder(q) + b, Placeholder(q), Placeholder(p);
    if |a| + |pat| <= |t| {
      var k := if |q| < |p| then |q| else if |q| > |p| then |p|
        else var k :| 0 <= k < |q| && q[k] != p[k]; k;
      PlaceholderChars(q, 2 + k);
      PlaceholderChars(p, 2 + k);
      TokenChar(a, tok, b, 2 + k);
      assert t[|a|..|a| + |pat|][2 + k] == t[|a| + 2 + k];
    }
  }

  /** One position of `OtherPlaceholderAbsent`. */
  lemma OtherPlaceholderNotAt(a: string, q: string, b: string, p: string, i: int)
    requires '{' !in a && '{' !in b && '{' !in q && '}' !in q && '}' !in p && p != q
    ensures !MatchAt(a + Placeholder(q) + b, Placeholder(p), i)
  {
    var t, tok, pat := a + Placeholder(q) + b, Placeholder(q), Placeholder(p);
    if 0 <= i && i + |pat| <= |t| {
      var w := t[i..i + |pat|];
      PlaceholderChars(p, 0);
      PlaceholderChars(p, 1);
      if i < |a| {
        assert w[0] == a[i];
      } else if i == |a| {
        SameSpotDiffers(a, q, b, p);
      } else if i < |a| + |tok| {
        var e := i - |a|;
        TokenChar(a, tok, b, e);
        PlaceholderChars(q, e);
        if e == 1 {
          TokenChar(a, tok, b, 2);
          PlaceholderChars(q, 2);
          assert w[1] == t[i + 1] == tok[2];
        } else {
          assert w[0] == tok[e];
        }
      } else {
        assert w[0] == t[i] == b[i - |a| - |tok|];
      }
    }
  }

  /** A placeholder occurs in a text only where it was written: in a text
      whose one `{` run is the placeholder of `q`, the placeholder of any
      other name (without `}`) occurs nowhere. */
  lemma OtherPlaceholderAbsent(a: string, q: string, b: string, p: string)
    requires '{' !in a && '{' !in b && '{' !in q && '}' !in q && '}' !in p && p != q
    ensures Count(a + Placeholder(q) + b, Placeholder(p)) == 0
  {
    var t, pat := a + Placeholder(q) + b, Placeholder(p);
    forall i ensures !MatchAt(t, pat, i) {
      OtherPlaceholderNotAt(a, q, b, p, i);
    }
    CountZeroIffAbsent(t, pat);
  }

  /** One position of `PlaceholdersDoNotOverlap`. */
  lemma PlaceholderNotOverlapAt(a: string, q: string, b: string, p: string, i: int)
    requires '{' !in q && '}' !in q && '{' !in p && '}' !in p && p != q
    requires 0 <= i < |a| + |Placeholder(q)| && i + |Placeholder(p)| > |a|
    ensures !MatchAt(a + Placeholder(q) + b, Placeholder(p), i)
  {
    var t, tok, pat := a + Placeholder(q) + b, Placeholder(q), Placeholder(p);
    if i + |pat| <= |t| {
      var w := t[i..i + |pat|];
      if i < |a| {
        var d := |a| - i;
        TokenChar(a, tok, b, 0);
        PlaceholderChars(q, 0);
        assert w[d] == t[|a|] == tok[0] == '{';
        if d == 1 {
          TokenChar(a, tok, b, 1);
          PlaceholderChars(q, 1);
          PlaceholderChars(p, 2);
          assert w[2] == t[|a| + 1] == tok[1] == '{';
        } else {
          PlaceholderChars(p, d);
        }
      } else if i == |a| {
        SameSpotDiffers(a, q, b, p);
      } else {
        var e := i - |a|;
        PlaceholderChars(p, 0);
        PlaceholderChars(p, 1);
        TokenChar(a, tok, b, e);
        PlaceholderChars(q, e);
        if e == 1 {
          TokenChar(a, tok, b, 2);
          PlaceholderChars(q, 2);
          assert w[1] == t[i + 1] == tok[2];
        } else {
          assert w[0] == tok[e];
        }
      }
    }
  }

  /** With names free of braces, no occurrence of one placeholder overlaps
      an occurrence of another, wherever it sits in a text. */
  lemma PlaceholdersDoNotOverlap(a: string, q: string, b: string, p: string)
    requires '{' !in q && '}' !in q && '{' !in p && '}' !in p && p != q
    ensures var t, pat := a + Placeholder(q) + b, Placeholder(p);
      forall i | 0 <= i < |a| + |Placeholder(q)| && i + |pat| > |a| :: !MatchAt(t, pat, i)
  {
    forall i | 0 <= i < |a| + |Placeholder(q)| && i + |Placeholder(p)| > |a|
      ensures !MatchAt(a + Placeholder(q) + b, Placeholder(p), i)
    {
      PlaceholderNotOverlapAt(a, q, b, p, i);
    }
  }

  /** A placeholder whose name is not among the parameters survives every
      substitution, whatever the rest of the text and the parameters'
      values: the result still holds it, between rewritten surroundings. */
  lemma {:induction false} UnknownPlaceholderKept(a: string, q: string, b: string, params: Params)
      returns (x: string, y: string)
    requires '{' !in q && '}' !in q
    requires forall k | 0 <= k < |params| ::
      params[k].0 != q && '{' !in params[k].0 && '}' !in params[k].0
    ensures Substitute(a + Placeholder(q) + b, params) == x + Placeholder(q) + y
    decreases |params|
  {
    if params == [] {
      x, y := a, b;
    } else {
      var pat, rep := Placeholder(params[0].0), params[0].1;
      PlaceholdersDoNotOverlap(a, q, b, params[0].0);
      var a' := ReplaceAllKeeps(a, Placeholder(q), b, pat, rep);
      assert forall k | 0 <= k < |params[1..]| :: params[1..][k] == params[k + 1];
      x, y := UnknownPlaceholderKept(a', q, ReplaceAll(b, pat, rep), params[1..]);
    }
  }

  /** In a text whose one `{` run is an unknown placeholder, every
      substitution leaves the whole text as it was. */
  lemma LonePlaceholderTextUnchanged(a: string, q: string, b: string, params: Params)
    requires '{' !in a && '{' !in b && '{' !in q && '}' !in q
    requires forall k | 0 <= k < |params| :: params[k].0 != q && '}' !in params[k].0
    ensures Substitute(a + Placeholder(q) + b, params) == a + Placeholder(q) + b
  {
    forall k | 0 <= k < |params|
      ensures Count(a + Placeholder(q) + b, Placeholder(params[k].0)) == 0
    {
      OtherPlaceholderAbsent(a, q, b, params[k].0);
    }
    SubstituteWithoutPlaceholders(a + Placeholder(q) + b, params);
  }

  /** Every occurrence of a parameter's placeholder is replaced: a template
      of brace-free parts separated by `{{name}}` becomes the parts
      separated by the value. */
  lemma EveryOccurrenceReplaced(parts: seq<string>, name: string, value: string)
    requires forall k | 0 <= k < |parts| :: '{' !in parts[k]
    ensures Substitute(Join(parts, Placeholder(name)), [(name, value)]) == Join(parts, value)
  {
    ReplaceAllEvery(parts, Placeholder(name), value);
  }

  /** A missing key comes back verbatim even with parameters, so long as it
      holds none of their placeholders. In particular a `fallback` parameter
      is only one more placeholder name: its text never replaces the key. */
  lemma TranslateMissingWithParams(l: Locale, key: string, params: Params)
    requires !HasEntry(l, key)
    requires forall k | 0 <= k < |params| :: Count(key, Placeholder(params[k].0)) == 0
    ensures Translate(l, key, params) == key
  {
    SubstituteWithoutPlaceholders(key, params);
  }

  /** A key without any `{` is never rewritten, whatever the parameters. */
  lemma TranslateMissingBraceless(l: Locale, key: string, params: Params)
    requires !HasEntry(l, key)
    requires '{' !in key
    ensures Translate(l, key, params) == key
  {
    forall k | 0 <= k < |params| ensures Count(key, Placeholder(params[k].0)) == 0 {
      CountWithoutFirstChar(key, Placeholder(params[k].0));
    }
    TranslateMissingWithParams(l, key, params);
  }

  // ---------------------------------------------------------------------
  // The tables seen through the resolver

  /** Every key of the English table is also a key of the Turkish one. */
  lemma TurkishCoversEnglish(key: string)
    ensures EnglishTable.En(key).Some? ==> TurkishTable.Tr(key).Some?
  {
  }

  /** The application title in each language, and the English fallback for
      a document language without a table. */
  lemma AppTitle(documentLang: string)
    ensures Translate(Init("en"), "app_title", []) == "Employee Management"
    ensures Translate(SetLanguage(Init(documentLang), "tr"), "app_title", []) == "Çalışan Yönetimi"
    ensures !Supported(documentLang) ==>
      Translate(Init(documentLang), "app_title", []) == "Employee Management"
  {
    EnglishTable.AppTitle();
    TurkishTable.AppTitle();
  }

  /** Under English, the search strings come back as their keys. */
  lemma EnglishSearchKeysVerbatim(l: Locale, params: Params)
    requires l.current == "en"
    ensures Translate(l, "search_placeholder", params) == "search_placeholder"
    ensures Translate(l, "search_aria_label", params) == "search_aria_label"
    ensures Translate(l, "no_employees_found_search", params) == "no_employees_found_search"
  {
    EnglishTable.NoSearchKeys();
    TranslateMissingBraceless(l, "search_placeholder", params);
    TranslateMissingBraceless(l, "search_aria_label", params);
    TranslateMissingBraceless(l, "no_employees_found_search", params);
  }

  /** The `name`-then-`fallback` parameters the list page passes, applied to
      a template holding `{{name}}` once and no other `{`: the name is spliced
      in and the fallback text is never used. */
  lemma {:induction false} SubstituteNameAndFallback(before: string, after: string, name: string, fallback: string)
    requires '{' !in before && '{' !in after && '{' !in name
    ensures Substitute(before + "{{name}}" + after, [("name", name), ("fallback", fallback)])
         == before + name + after
  {
    var params := [("name", name), ("fallback", fallback)];
    assert Placeholder("name") == "{{name}}";
    ReplaceAllSingle(before, "{{name}}", name, after);
    var text := before + name + after;
    CountWithoutFirstChar(text, Placeholder("fallback"));
    ReplaceAllAbsent(text, Placeholder("fallback"), fallback);
    assert params[1..] == [("fallback", fallback)];
    calc {
      Substitute(before + "{{name}}" + after, params);
      Substitute(text, params[1..]);
      Substitute(ReplaceAll(text, Placeholder("fallback"), fallback), []);
    }
  }

  /** A non-empty entry of a supported table is what the lookup returns. */
  lemma LookupOf(l: Locale, key: string, t: string)
    requires Supported(l.current) && Translation(l.current, key) == Some(t) && t != []
    ensures Lookup(l, key) == t
  {
  }

  /** The English delete confirmation with the parameters the list page
      passes. */
  lemma EnglishConfirmDelete(l: Locale, name: string, fallback: string)
    requires l.current == "en"
    requires '{' !in name
    ensures Translate(l, "confirm_delete_employee", [("name", name), ("fallback", fallback)])
         == "Are you sure you want to delete " + name + "?"
  {
    EnglishTable.ConfirmDeletePlaceholder();
    LookupOf(l, "confirm_delete_employee", EnglishTable.ConfirmDelete);
    SubstituteNameAndFallback("Are you sure you want " + "to delete ", "?", name, fallback);
  }

  /** In either language, both delete messages splice the employee's name in
      between two fixed texts that hold no placeholder. */
  lemma DeleteMessagesCarryName(l: Locale, key: string, name: string, fallback: string)
      returns (before: string, after: string)
    requires Valid(l)
    requires key == "confirm_delete_employee" || key == "error_delete_employee"
    requires '{' !in name
    ensures Translate(l, key, [("name", name), ("fallback", fallback)]) == before + name + after
    ensures '{' !in before && '{' !in after
  {
    var t := TemplateWithName(l, key);
    before, after :| t == before + "{{name}}" + after && '{' !in before && '{' !in after;
    SubstituteNameAndFallback(before, after, name, fallback);
  }

  /** The template behind a delete message, which holds `{{name}}` once. */
  lemma TemplateWithName(l: Locale, key: string) returns (t: string)
    requires Valid(l)
    requires key == "confirm_delete_employee" || key == "error_delete_employee"
    ensures Lookup(l, key) == t
    ensures PlacedOnce(t, "{{name}}")
  {
    if l.current == "en" {
      if key == "confirm_delete_employee" {
        EnglishTable.ConfirmDeletePlaceholder();
        t := EnglishTable.ConfirmDelete;
      } else {
        EnglishTable.ErrorDeleteEntry();
        EnglishTable.ErrorDeletePlaceholder();
        t := EnglishTable.ErrorDelete;
      }
    } else {
      if key == "confirm_delete_employee" {
        TurkishTable.ConfirmDeletePlaceholder();
        t := TurkishTable.ConfirmDelete;
      } else {
        TurkishTable.ErrorDeleteEntry();
        TurkishTable.ErrorDeletePlaceholder();
        t := TurkishTable.ErrorDelete;
      }
    }
    LookupOf(l, key, t);
  }

  // ---------------------------------------------------------------------
  // The language check as written

  /** The property names every plain object inherits from `Object.prototype`.
      Indexing `translations` with one of them yields a function or an
      object, which is truthy. */
  const ObjectPrototypeMembers: set<string> := {
    "constructor", "hasOwnProperty", "isPrototypeOf", "propertyIsEnumerable",
    "toLocaleString", "toString", "valueOf", "__proto__",
    "__defineGetter__", "__defineSetter__", "__lookupGetter__", "__lookupSetter__"
  }

  /** `translations[lang]` is truthy: an own table, or an inherited member. */
  predicate TruthyAsWritten(lang: string) {
    Supported(lang) || lang in ObjectPrototypeMembers
  }

  /** Module initialisation with the truthiness test of the source. */
  function InitAsWritten(documentLang: string): (l: Locale)
    ensures l.documentLang == documentLang
    ensures TruthyAsWritten(documentLang) ==> l.current == documentLang
    ensures !TruthyAsWritten(documentLang) ==> l.current == DefaultLanguage
  {
    var candidate := if documentLang != "" then documentLang else DefaultLanguage;
    Locale(if TruthyAsWritten(candidate) then candidate else DefaultLanguage, documentLang)
  }

  /** `setLanguage` with the truthiness test of the source. */
  function SetLanguageAsWritten(l: Locale, lang: string): (r: Locale)
    ensures TruthyAsWritten(lang) ==> r.current == lang && r.documentLang == lang
    ensures !TruthyAsWritten(lang) ==> r == l
  {
    if TruthyAsWritten(lang) then Locale(lang, lang) else l
  }

  /** On every name that is not an inherited member, the source's test and
      the own-table test agree. */
  lemma AsWrittenAgreesOffPrototype(l: Locale, lang: string, documentLang: string)
    requires lang !in ObjectPrototypeMembers && documentLang !in ObjectPrototypeMembers
    ensures SetLanguageAsWritten(l, lang) == SetLanguage(l, lang)
    ensures InitAsWritten(documentLang) == Init(documentLang)
  {
  }

  /** `setLanguage("toString")` is accepted: the selector then names no
      table, and every key, the title included, comes back untranslated. */
  lemma PrototypeLanguageAccepted()
    ensures !Valid(SetLanguageAsWritten(Init("en"), "toString"))
    ensures !Valid(InitAsWritten("toString"))
    ensures Translate(SetLanguageAsWritten(Init("en"), "toString"), "app_title", []) == "app_title"
  {
  }

  /** The requests applied in order. */
  function SetLanguages(l: Locale, requests: seq<string>): Locale
    decreases |requests|
  {
    if requests == [] then l else SetLanguages(SetLanguage(l, requests[0]), requests[1..])
  }

  /** The corrected selector, started valid (as `Init` leaves it), names a
      table after any sequence of requests. */
  lemma {:induction false} SelectorStaysValid(l: Locale, requests: seq<string>)
    requires Valid(l)
    ensures Valid(SetLanguages(l, requests))
    decreases |requests|
  {
    if requests != [] {
      SelectorStaysValid(SetLanguage(l, requests[0]), requests[1..]);
    }
  }
}
