/** Message tables per locale, the fallback chain of `translate`, and the
    `{n}` placeholder substitution of `format`. */
module Translations {

  import opened Protocol
  import opened Util

  /** `isLocaleSupported`: the locales that ship a message table. */
  function IsLocaleSupported(locale: string): (r: bool)
    ensures r <==> locale == "en" || locale == "ja"
  {
    locale in {"en", "ja"}
  }

  // ---------------------------------------------------------------------
  // format

  /** Length of the leading run of decimal digits. */
  function DigitRun(s: string): (k: nat)
    ensures k <= |s| && AllDigits(s[..k])
    ensures k < |s| ==> !IsDigit(s[k])
  {
    if s == [] || !IsDigit(s[0]) then 0
    else
      var k := 1 + DigitRun(s[1..]);
      assert s[..k] == [s[0]] + s[1..][..k - 1];
      k
  }

  /** Length of a `{digits}` match of `/{([0-9]+)}/` at the start of `s`, or
      0 when none starts there. The digit run is greedy, and a shorter run
      would be followed by a digit rather than `}`, so this is the only
      candidate. */
  function PlaceholderLen(s: string): (n: nat)
    ensures n == 0 || (3 <= n <= |s| && s[0] == '{' && s[n - 1] == '}' && AllDigits(s[1..n - 1]))
  {
    if |s| > 0 && s[0] == '{' then
      var d := DigitRun(s[1..]);
      if d > 0 && d + 1 < |s| && s[d + 1] == '}' then
        assert s[1..d + 1] == s[1..][..d];
        d + 2
      else 0
    else 0
  }

  /** `format` as written: the callback's `args[0]` is the first character
      of the captured digits, so `{12}` is looked up as index 1. */
  function FormatAsWritten(s: string, values: seq<string>): (r: string)
    decreases |s|
  {
    if s == [] then []
    else
      var n := PlaceholderLen(s);
      if n > 0 then
        var index := DigitsValue(s[1..2]);
        (if index < |values| then values[index] else s[..n]) + FormatAsWritten(s[n..], values)
      else [s[0]] + FormatAsWritten(s[1..], values)
  }

  /** `format` with the whole digit string as the index: each `{k}` with
      k below the number of values becomes values[k], every other text is
      copied. */
  function Format(s: string, values: seq<string>): (r: string)
    decreases |s|
  {
    if s == [] then []
    else
      var n := PlaceholderLen(s);
      if n > 0 then
        var index := DigitsValue(s[1..n - 1]);
        (if index < |values| then values[index] else s[..n]) + Format(s[n..], values)
      else [s[0]] + Format(s[1..], values)
  }

  /** No `{digits}` placeholder starts anywhere in `s`. */
  predicate NoPlaceholder(s: string)
  {
    forall i :: 0 <= i < |s| ==> PlaceholderLen(s[i..]) == 0
  }

  /** A string without placeholders passes through unchanged. */
  lemma {:induction false} FormatWithoutPlaceholder(s: string, values: seq<string>)
    requires NoPlaceholder(s)
    ensures Format(s, values) == s
    decreases |s|
  {
    if s != [] {
      assert s[0..] == s;
      assert NoPlaceholder(s[1..]) by {
        forall i | 0 <= i < |s[1..]|
          ensures PlaceholderLen(s[1..][i..]) == 0
        {
          assert s[1..][i..] == s[i + 1..];
        }
      }
      FormatWithoutPlaceholder(s[1..], values);
    }
  }

  /** With no values every placeholder is left as it is: the text passes
      through unchanged. */
  lemma {:induction false} FormatWithoutValues(s: string)
    ensures Format(s, []) == s
    decreases |s|
  {
    if s != [] {
      var n := PlaceholderLen(s);
      if n > 0 {
        FormatWithoutValues(s[n..]);
        assert s[..n] + s[n..] == s;
      } else {
        FormatWithoutValues(s[1..]);
        assert [s[0]] + s[1..] == s;
      }
    }
  }

  /** A placeholder `{k}` at the start is replaced by values[k] when there
      is such a value and kept otherwise; the rest is formatted on its own. */
  lemma FormatPlaceholder(k: nat, rest: string, values: seq<string>)
    ensures var token := "{" + NatToString(k) + "}";
      Format(token + rest, values)
        == (if k < |values| then values[k] else token) + Format(rest, values)
  {
    var token := "{" + NatToString(k) + "}";
    TokenMatches(k, rest);
    FormatStep(token + rest, values);
  }

  /** `{k}` followed by anything is matched as one placeholder of index k. */
  lemma TokenMatches(k: nat, rest: string)
    ensures var token := "{" + NatToString(k) + "}";
      var s := token + rest;
      var n := PlaceholderLen(s);
      && n == |token| && s[..n] == token && s[n..] == rest
      && DigitsValue(s[1..n - 1]) == k
  {
    var digits := NatToString(k);
    var d := |digits|;
    var s := "{" + digits + "}" + rest;
    assert s[1..][..d] == digits;
    DigitRunOf(s[1..], d);
    assert s[1..d + 1] == digits;
  }

  /** One step of format at a placeholder. */
  lemma FormatStep(s: string, values: seq<string>)
    requires PlaceholderLen(s) > 0
    ensures var n := PlaceholderLen(s);
      var index := DigitsValue(s[1..n - 1]);
      Format(s, values) == (if index < |values| then values[index] else s[..n]) + Format(s[n..], values)
  {
  }

  /** The digit run of a string whose first k characters are digits and
      whose next one is not. */
  lemma DigitRunOf(s: string, k: nat)
    requires k < |s| && AllDigits(s[..k]) && !IsDigit(s[k])
    ensures DigitRun(s) == k
  {
  }

  // ---------------------------------------------------------------------
  // The message tables and translate

  /** Locale to (message key to message). */
  type Tables = map<string, map<string, string>>

  /** A value of the parsed translation file: only strings are messages. */
  datatype JsonValue = JsonString(text: string) | JsonOther

  /** The message stored for the key in the locale's table, if any. */
  function Lookup(tables: Tables, locale: string, key: string): (r: Option<string>)
    ensures r.Some? <==> locale in tables && key in tables[locale]
    ensures r.Some? ==> r.value == tables[locale][key]
  {
    if locale in tables && key in tables[locale] then Some(tables[locale][key]) else None
  }

  /** `translate`: the locale's message, else the English one, formatted
      with the values; the key itself when neither table has it. */
  function Translate(tables: Tables, locale: string, key: string, values: seq<string>): (r: string)
  {
    var str := Lookup(tables, locale, key);
    var str := if str.None? then Lookup(tables, "en", key) else str;
    if str.Some? then Format(str.value, values) else key
  }

  /** `translate` as written, formatting with `FormatAsWritten`. */
  function TranslateAsWritten(tables: Tables, locale: string, key: string, values: seq<string>): (r: string)
    ensures Lookup(tables, locale, key).None? && Lookup(tables, "en", key).None? ==> r == key
  {
    var str := Lookup(tables, locale, key);
    var str := if str.None? then Lookup(tables, "en", key) else str;
    if str.Some? then FormatAsWritten(str.value, values) else key
  }

  /** Every placeholder in `s` has a single digit. */
  predicate SingleDigitPlaceholders(s: string)
  {
    forall i :: 0 <= i < |s| ==> PlaceholderLen(s[i..]) <= 3
  }

  /** On texts whose placeholders have one digit each, the first digit is
      the whole index, so `format` as written and as intended agree. */
  lemma {:induction false} FormatsAgree(s: string, values: seq<string>)
    requires SingleDigitPlaceholders(s)
    ensures FormatAsWritten(s, values) == Format(s, values)
    decreases |s|
  {
    if s != [] {
      var n := PlaceholderLen(s);
      var m := if n > 0 then n else 1;
      assert PlaceholderLen(s[0..]) <= 3 by { assert s[0..] == s; }
      forall i | 0 <= i < |s[m..]| ensures PlaceholderLen(s[m..][i..]) <= 3 {
        assert s[m..][i..] == s[m + i..];
      }
      FormatsAgree(s[m..], values);
    }
  }

  /** With single-digit placeholders in the stored texts, `translate` as
      written gives the intended message. */
  lemma TranslatesAgree(tables: Tables, locale: string, key: string, values: seq<string>)
    requires forall l, k :: l in tables && k in tables[l] ==> SingleDigitPlaceholders(tables[l][k])
    ensures TranslateAsWritten(tables, locale, key, values) == Translate(tables, locale, key, values)
  {
    var own := Lookup(tables, locale, key);
    var str := if own.None? then Lookup(tables, "en", key) else own;
    if str.Some? {
      FormatsAgree(str.value, values);
    }
  }

  /** The three outcomes of translate, in order of preference. */
  lemma TranslateFallback(tables: Tables, locale: string, key: string, values: seq<string>)
    ensures locale in tables && key in tables[locale] ==>
      Translate(tables, locale, key, values) == Format(tables[locale][key], values)
    ensures !(locale in tables && key in tables[locale]) && "en" in tables && key in tables["en"] ==>
      Translate(tables, locale, key, values) == Format(tables["en"][key], values)
    ensures !(locale in tables && key in tables[locale]) && !("en" in tables && key in tables["en"]) ==>
      Translate(tables, locale, key, values) == key
  {
  }

  /** A message without placeholders is returned as stored, whatever the
      values. */
  lemma TranslatePlain(tables: Tables, locale: string, key: string, values: seq<string>)
    requires locale in tables && key in tables[locale] && NoPlaceholder(tables[locale][key])
    ensures Translate(tables, locale, key, values) == tables[locale][key]
  {
    FormatWithoutPlaceholder(tables[locale][key], values);
  }

  /** The table after `updateTable` has stored the string-valued entries
      of the first n members of the parsed file in order. */
  function Merged(table: map<string, string>, entries: seq<(string, JsonValue)>): (r: map<string, string>)
    decreases |entries|
  {
    if entries == [] then table
    else
      var t := Merged(table, entries[..|entries| - 1]);
      var (key, value) := entries[|entries| - 1];
      if value.JsonString? then t[key := value.text] else t
  }

  /** updateTable stores only strings: a key it adds comes from a string
      entry holding that very message, and every string entry's key ends up
      in the table. */
  lemma {:induction false} MergedSpec(table: map<string, string>, entries: seq<(string, JsonValue)>)
    ensures forall k :: k in Merged(table, entries) && k !in table ==>
      exists j :: 0 <= j < |entries| && entries[j] == (k, JsonString(Merged(table, entries)[k]))
    ensures forall j :: 0 <= j < |entries| && entries[j].1.JsonString? ==> entries[j].0 in Merged(table, entries)
    ensures forall k :: k in table ==> k in Merged(table, entries)
    decreases |entries|
  {
    if entries != [] {
      var prefix := entries[..|entries| - 1];
      MergedSpec(table, prefix);
      forall j | 0 <= j < |entries| - 1 ensures entries[j] == prefix[j] { }
    }
  }

  /** The module-level table of the source, filled per locale. */
  class Translator {
    var tables: Tables

    constructor()
      ensures tables == map[]
    {
      tables := map[];
    }

    /** `updateTable`: walks the file's entries and sets each string-valued
        one into the locale's table, when that table exists. */
    method UpdateTable(locale: string, entries: seq<(string, JsonValue)>)
      modifies this
      ensures locale in old(tables) ==> tables == old(tables)[locale := Merged(old(tables)[locale], entries)]
      ensures locale !in old(tables) ==> tables == old(tables)
    {
      if locale !in tables {
        return;
      }
      var j := 0;
      ghost var start := tables[locale];
      while j < |entries|
        invariant 0 <= j <= |entries|
        invariant tables == old(tables)[locale := Merged(start, entries[..j])]
      {
        var (key, value) := entries[j];
        assert entries[..j + 1][..j] == entries[..j];
        if value.JsonString? {
          tables := tables[locale := tables[locale][key := value.text]];
        }
        j := j + 1;
      }
      assert entries[..j] == entries;
    }
  }

  // ---------------------------------------------------------------------
  // The index of a placeholder

  /** `{10}` with two values: as written the first digit selects values[1];
      the whole number 10 has no value, so the placeholder should stay. */
  lemma FormatReadsFirstDigit()
    ensures FormatAsWritten("{10}", ["a", "b"]) == "b"
    ensures Format("{10}", ["a", "b"]) == "{10}"
  {
    var s := "{10}";
    DigitRunOf(s[1..], 2);
    assert PlaceholderLen(s) == 4;
    assert s[1..2] == "1";
    assert DigitsValue("1") == 1;
    assert s[1..3] == "10";
    assert DigitsValue("10") == 10 by {
      assert "10"[..1] == "1";
    }
    assert s[4..] == [];
  }
}
