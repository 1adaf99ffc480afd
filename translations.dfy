/**
 * The translation catalog (src/libs/translations.rs): `key;text;locale` lines of a CSV
 * text loaded into a map from locale to a map from key to text, with lookup and
 * locale fallback.
 */
module Translations {
  import opened Wrappers
  import opened Text

  /** Locale to key to text. */
  type Strings = map<string, map<string, string>>

  datatype Translations = Translations(strings: Strings)

  /**
   * Why the catalog file could not be read (`std::fs::read_to_string` failing), as the
   * `Debug` text of the `io::Error`.
   */
  datatype IoError = IoError(debug: string)

  /** One loaded line. */
  datatype Entry = Entry(key: string, text: string, locale: string)

  /**
   * The entry a line carries: exactly three `;`-separated fields, in the order key, text,
   * locale. A loaded entry has no `;` in its fields and is written as the line it came from.
   */
  function Record(line: string): (r: Option<Entry>)
    ensures r.Some? ==> ';' !in r.value.key && ';' !in r.value.text && ';' !in r.value.locale
    ensures r.Some? ==> EntryLine(r.value) == line
  {
    var parts := Split(line, ';');
    if |parts| == 3 then
      SplitPieces(line, ';');
      JoinSplit(line, ';');
      assert parts[1..][1..] == [parts[2]];
      assert Join(parts[1..], ';') == parts[1] + [';'] + parts[2];
      assert line == parts[0] + ";" + parts[1] + ";" + parts[2];
      Some(Entry(parts[0], parts[1], parts[2]))
    else
      None
  }

  /** `strings.entry(locale).or_insert_with(HashMap::new).insert(key, text)`. */
  function Insert(strings: Strings, e: Entry): (r: Strings)
    ensures r.Keys == strings.Keys + {e.locale}
    ensures r[e.locale] == (if e.locale in strings then strings[e.locale] else map[])[e.key := e.text]
    ensures forall l :: l in strings && l != e.locale ==> r[l] == strings[l]
  {
    var table := if e.locale in strings then strings[e.locale] else map[];
    strings[e.locale := table[e.key := e.text]]
  }

  /**
   * One pass of the loop body: a line with an entry is inserted, any other is ignored.
   * Nothing loaded before is lost: every locale and every key stays.
   */
  function Apply(strings: Strings, line: string): (r: Strings)
    ensures forall l :: l in strings ==> l in r && strings[l].Keys <= r[l].Keys
  {
    match Record(line)
    case Some(e) => Insert(strings, e)
    case None => strings
  }

  /** The lines applied in order, starting from the empty map. Every locale it holds has a key. */
  function LoadAll(lines: seq<string>): (r: Strings)
    ensures forall l :: l in r ==> r[l] != map[]
  {
    if |lines| == 0 then map[]
    else
      var line := lines[|lines| - 1];
      var after := Apply(LoadAll(lines[..|lines| - 1]), line);
      assert Record(line).Some? ==> Record(line).value.key in after[Record(line).value.locale];
      after
  }

  /** What `from_csv` builds from the file's text: every line but the first, so a lone header loads nothing. */
  function Parse(content: string): (r: Translations)
    ensures |Lines(content)| <= 1 ==> r.strings == map[]
  {
    var lines := Lines(content);
    Translations(if |lines| == 0 then map[] else LoadAll(lines[1..]))
  }

  /** The line loop of `from_csv` over text already read. */
  method ParseCsv(content: string) returns (t: Translations)
    ensures t == Parse(content)
  {
    var lines := Lines(content);
    var strings: Strings := map[];
    for i := 0 to |lines|
      invariant i == 0 ==> strings == map[]
      invariant i > 0 ==> strings == LoadAll(lines[1..i])
    {
      if i == 0 {
        continue;
      }
      var parts := Split(lines[i], ';');
      if |parts| == 3 {
        var key, text, locale := parts[0], parts[1], parts[2];
        var table := if locale in strings then strings[locale] else map[];
        strings := strings[locale := table[key := text]];
      }
      assert lines[1..i + 1][..i - 1] == lines[1..i];
    }
    if |lines| > 0 {
      assert lines[1..|lines|] == lines[1..];
    }
    t := Translations(strings);
  }

  /** `Translations::from_csv`: a read failure is passed on, otherwise the text is parsed. */
  method FromCsv(read: Result<string, IoError>) returns (r: Result<Translations, IoError>)
    ensures read.Err? ==> r == Err(read.error)
    ensures read.Ok? ==> r == Ok(Parse(read.value))
  {
    if read.Err? {
      return Err(read.error);
    }
    var t := ParseCsv(read.value);
    return Ok(t);
  }

  /** `get`: the text for `key` in `locale`, when both are present. */
  function Get(t: Translations, locale: string, key: string): (r: Option<string>)
    ensures r.Some? <==> locale in t.strings && key in t.strings[locale]
    ensures r.Some? ==> r.value == t.strings[locale][key]
  {
    if locale in t.strings && key in t.strings[locale] then Some(t.strings[locale][key]) else None
  }

  /** `get_locale_with_fallback`: the locale's table, else the fallback's, else an empty one. */
  function GetLocaleWithFallback(t: Translations, locale: string, fallback: string): (r: map<string, string>)
    ensures locale in t.strings ==> r == t.strings[locale]
    ensures locale !in t.strings && fallback in t.strings ==> r == t.strings[fallback]
    ensures locale !in t.strings && fallback !in t.strings ==> r == map[]
  {
    if locale in t.strings then t.strings[locale]
    else if fallback in t.strings then t.strings[fallback]
    else map[]
  }

  // ---------------------------------------------------------------------------
  // Properties

  /** The line a well-formed entry is written as. */
  function EntryLine(e: Entry): string
  {
    e.key + ";" + e.text + ";" + e.locale
  }

  /** An entry whose fields hold no `;` reads back from its line. */
  lemma RecordEntryLine(e: Entry)
    requires ';' !in e.key && ';' !in e.text && ';' !in e.locale
    ensures Record(EntryLine(e)) == Some(e)
  {
    SplitCons(e.key, ';', e.text + ";" + e.locale);
    assert EntryLine(e) == e.key + [';'] + (e.text + ";" + e.locale);
    SplitCons(e.text, ';', e.locale);
    assert e.text + ";" + e.locale == e.text + [';'] + e.locale;
    SplitWithoutSeparator(e.locale, ';');
  }

  /** A line carries an entry exactly when it has two `;`; any other line changes nothing. */
  lemma RecordShape(strings: Strings, line: string)
    ensures Record(line).Some? <==> Occurrences(line, ';') == 2
    ensures Record(line).None? ==> Apply(strings, line) == strings
  {
    SplitLength(line, ';');
  }

  /**
   * A loaded line `key;text;locale` sets the text at (locale, key) and leaves every other
   * (locale, key) pair as it was.
   */
  lemma ApplySetsOneEntry(strings: Strings, line: string, locale: string, key: string)
    requires Record(line).Some?
    ensures var e := Record(line).value;
      var after := Translations(Apply(strings, line));
      (locale == e.locale && key == e.key ==> Get(after, locale, key) == Some(e.text))
      && (locale != e.locale || key != e.key ==> Get(after, locale, key) == Get(Translations(strings), locale, key))
  {
  }

  /**
   * The first line is never loaded, even when it is a well-formed entry: the text after
   * it loads as if it stood alone.
   */
  lemma HeaderSkipped(header: string, rest: string)
    requires '\n' !in header
    ensures Parse(header + "\n" + rest).strings == LoadAll(Lines(rest))
  {
    LinesCons(header, rest);
    var lines := Lines(header + "\n" + rest);
    assert lines[1..] == Lines(rest);
  }

  /**
   * Reference reading of the catalog: the text of the last line whose entry has this
   * locale and key.
   */
  function Lookup(lines: seq<string>, locale: string, key: string): Option<string>
  {
    if |lines| == 0 then None
    else
      var e := Record(lines[|lines| - 1]);
      if e.Some? && e.value.locale == locale && e.value.key == key then Some(e.value.text)
      else Lookup(lines[..|lines| - 1], locale, key)
  }

  /** The loaded map agrees with the reference reading: the last line for a (locale, key) wins. */
  lemma {:induction false} LoadAllLookup(lines: seq<string>, locale: string, key: string)
    ensures var m := LoadAll(lines);
      (locale in m && key in m[locale]) <==> Lookup(lines, locale, key).Some?
    ensures var m := LoadAll(lines);
      locale in m && key in m[locale] ==> m[locale][key] == Lookup(lines, locale, key).value
    decreases |lines|
  {
    if |lines| > 0 {
      LoadAllLookup(lines[..|lines| - 1], locale, key);
    }
  }

  /** A locale is in the map exactly when some loaded line names it. */
  lemma {:induction false} LoadAllLocales(lines: seq<string>, locale: string)
    ensures locale in LoadAll(lines) <==>
      exists j :: 0 <= j < |lines| && Record(lines[j]).Some? && Record(lines[j]).value.locale == locale
    decreases |lines|
  {
    if |lines| > 0 {
      var init := lines[..|lines| - 1];
      LoadAllLocales(init, locale);
      assert forall j :: 0 <= j < |init| ==> init[j] == lines[j];
      if locale in LoadAll(lines) && locale !in LoadAll(init) {
        assert Record(lines[|lines| - 1]).Some? && Record(lines[|lines| - 1]).value.locale == locale;
      }
    }
  }

  /** `get` on a parsed catalog is the reference reading of every line but the first. */
  lemma GetParsed(content: string, locale: string, key: string)
    ensures var lines := Lines(content);
      Get(Parse(content), locale, key) == Lookup(if |lines| == 0 then [] else lines[1..], locale, key)
  {
    var lines := Lines(content);
    if |lines| > 0 {
      LoadAllLookup(lines[1..], locale, key);
    }
  }

  /**
   * On a parsed catalog the fallback table is empty only when neither the locale nor the
   * fallback was ever loaded.
   */
  lemma FallbackEmpty(content: string, locale: string, fallback: string)
    ensures var t := Parse(content);
      GetLocaleWithFallback(t, locale, fallback) == map[] <==> locale !in t.strings && fallback !in t.strings
  {
  }
}
