/**
  The translation catalogue of `translations.py`: one parsed JSON document per
  language file, dotted-key lookup with English fallback and a default for
  anything missing or falsy.
 */
module Translations {
  import opened Base
  import opened Strings

  /** A parsed JSON document. JSON numbers with a fraction are not modelled. */
  datatype Json =
    | JNull
    | JBool(b: bool)
    | JInt(i: int)
    | JStr(s: string)
    | JArray(items: seq<Json>)
    | JObject(fields: map<string, Json>)

  /** Python truthiness: `None`, `False`, `0`, `""`, `[]` and `{}` are falsy. */
  predicate Truthy(v: Json) {
    match v
    case JNull => false
    case JBool(b) => b
    case JInt(i) => i != 0
    case JStr(s) => |s| > 0
    case JArray(items) => |items| > 0
    case JObject(fields) => |fields| > 0
  }

  /** One directory entry of the languages folder; `content` is `None` when
      opening or parsing the file raised. */
  datatype LangFile = LangFile(name: string, content: Option<Json>)

  /** The two dictionaries a `Translations` object holds: parsed documents and
      friendly names, both keyed by language code. */
  datatype Catalog = Catalog(strings: map<string, Json>, available: map<string, string>)

  /** Both dictionaries register the same language codes. */
  predicate WellFormed(cat: Catalog) {
    cat.strings.Keys == cat.available.Keys
  }

  const FallbackLanguage: string := "en"
  const JsonSuffix: string := ".json"

  /** `_get_language_name`: two fixed names, otherwise the upper-cased code. */
  function LanguageName(code: string): (name: string)
    ensures code != "en" && code != "cs" ==>
              SameIgnoringCase(name, code) && forall i :: 0 <= i < |name| ==> !('a' <= name[i] <= 'z')
  {
    UpperOnlyChangesCase(code);
    if code == "en" then "English"
    else if code == "cs" then "\U{010C}e\U{0161}tina"
    else Upper(code)
  }

  /** The language code of a file name: the name without its `.json` suffix,
      or `None` for a file the loader skips. */
  function LangCode(name: string): (code: Option<string>)
    ensures code.Some? <==> EndsWith(name, JsonSuffix)
    ensures code.Some? ==> name == code.value + JsonSuffix
  {
    if EndsWith(name, JsonSuffix) then Some(name[..|name| - |JsonSuffix|]) else None
  }

  /** Reference definition of what loading leaves under `code`: the content of
      the last successfully parsed file named `code + ".json"`. */
  function LastLoaded(files: seq<LangFile>, code: string): Option<Json> {
    if |files| == 0 then None
    else
      var f := files[|files| - 1];
      if f.name == code + JsonSuffix && f.content.Some? then f.content
      else LastLoaded(files[..|files| - 1], code)
  }

  /** A file name belongs to exactly one language code: the one `LangCode` gives. */
  lemma NameOfCode(name: string, code: string)
    ensures name == code + JsonSuffix <==> LangCode(name) == Some(code)
  {
    if name == code + JsonSuffix {
      assert name[|name| - |JsonSuffix|..] == JsonSuffix;
      assert name[..|name| - |JsonSuffix|] == code;
    }
  }

  /** Reading one more file changes `LastLoaded` only for that file's code. */
  lemma LastLoadedExtend(files: seq<LangFile>, i: nat, code: string)
    requires i < |files|
    ensures LastLoaded(files[..i + 1], code) ==
            (if LangCode(files[i].name) == Some(code) && files[i].content.Some?
             then files[i].content else LastLoaded(files[..i], code))
  {
    assert files[..i + 1][..i] == files[..i];
    assert files[..i + 1][i] == files[i];
    NameOfCode(files[i].name, code);
  }

  /** `_load_all_languages` over the directory listing (`None` when the
      directory does not exist). A file that fails to load registers its code
      in neither dictionary. */
  method LoadAllLanguages(dir: Option<seq<LangFile>>) returns (cat: Catalog)
    ensures WellFormed(cat)
    ensures forall code :: code in cat.strings <==> dir.Some? && LastLoaded(dir.value, code).Some?
    ensures forall code :: code in cat.strings ==> cat.strings[code] == LastLoaded(dir.value, code).value
    ensures forall code :: code in cat.available ==> cat.available[code] == LanguageName(code)
  {
    cat := Catalog(map[], map[]);
    if dir.None? {
      return;
    }
    var files := dir.value;
    var i := 0;
    while i < |files|
      invariant 0 <= i <= |files|
      invariant WellFormed(cat)
      invariant forall code :: code in cat.strings <==> LastLoaded(files[..i], code).Some?
      invariant forall code :: code in cat.strings ==> cat.strings[code] == LastLoaded(files[..i], code).value
      invariant forall code :: code in cat.available ==> cat.available[code] == LanguageName(code)
    {
      var f := files[i];
      var code := LangCode(f.name);
      forall c
        ensures LastLoaded(files[..i + 1], c) ==
                (if code == Some(c) && f.content.Some? then f.content else LastLoaded(files[..i], c))
      {
        LastLoadedExtend(files, i, c);
      }
      if code.Some? && f.content.Some? {
        var c := code.value;
        cat := Catalog(cat.strings[c := f.content.value], cat.available[c := LanguageName(c)]);
      }
      i := i + 1;
    }
    assert files[..|files|] == files;
  }

  /** Descends one map level per key segment; `None` when a non-object is
      reached while segments remain. A missing segment yields `JNull`. */
  function Walk(v: Json, keys: seq<string>): Option<Json>
    decreases |keys|
  {
    if |keys| == 0 then Some(v)
    else match v
      case JObject(m) => Walk(if keys[0] in m then m[keys[0]] else JNull, keys[1..])
      case _ => None
  }

  /** The value under one key of an object, `JNull` when absent (`dict.get`). */
  function Child(m: map<string, Json>, k: string): Json {
    if k in m then m[k] else JNull
  }

  /** The walk and the falsy test of `get`, starting from a document `root`. */
  function Lookup(root: Json, key: string, default: Json): (r: Json)
    ensures r == default || Truthy(r)
  {
    match Walk(root, Split(key, "."))
    case None => default
    case Some(v) => if Truthy(v) then v else default
  }

  /** `get(key, language, default)`: an unloaded language falls back to English,
      a missing English document to the empty object. */
  function Get(cat: Catalog, key: string, language: string, default: Json): (r: Json)
    ensures r == default || Truthy(r)
  {
    var lang := if language in cat.strings then language else FallbackLanguage;
    var root := if lang in cat.strings then cat.strings[lang] else JObject(map[]);
    Lookup(root, key, default)
  }

  /** `get_all(language)`: the whole document of exactly that language, with
      no English fallback. */
  function GetAll(cat: Catalog, language: string): Json {
    if language in cat.strings then cat.strings[language] else JObject(map[])
  }

  /** `language_exists(code)`: agrees with the friendly-name dictionary. */
  function LanguageExists(cat: Catalog, code: string): (b: bool)
    requires WellFormed(cat)
    ensures b <==> code in cat.available
  {
    code in cat.strings
  }

  // ---------------------------------------------------------------------------
  // Properties of lookup.

  /** Walking a concatenated path is walking the first part, then the second. */
  lemma {:induction false} WalkAppend(v: Json, p: seq<string>, q: seq<string>)
    ensures Walk(v, p + q) == (match Walk(v, p) case None => None case Some(w) => Walk(w, q))
    decreases |p|
  {
    if |p| == 0 {
      assert p + q == q;
    } else {
      assert (p + q)[0] == p[0] && (p + q)[1..] == p[1..] + q;
      match v
      case JObject(m) => WalkAppend(Child(m, p[0]), p[1..], q);
      case _ =>
    }
  }

  /** A dotted key descends into the object under its first segment. */
  lemma LookupDescends(m: map<string, Json>, head: string, rest: string, default: Json)
    requires '.' !in head
    ensures Lookup(JObject(m), head + "." + rest, default) == Lookup(Child(m, head), rest, default)
  {
    SplitFirstSegment(head, '.', rest);
    var tail := Split(rest, ".");
    assert Split(head + "." + rest, ".") == [head] + tail;
    WalkAppend(JObject(m), [head], tail);
  }

  /** Once a non-object is reached, every key yields the default. */
  lemma LookupNonObject(v: Json, key: string, default: Json)
    requires !v.JObject?
    ensures Lookup(v, key, default) == default
  {
    var parts := Split(key, ".");
    assert |parts| >= 1;
  }

  /** A key without dots reads one entry: the value if present and truthy,
      otherwise the default — including a non-empty sub-object. */
  lemma LookupSingleSegment(m: map<string, Json>, key: string, default: Json)
    requires '.' !in key
    ensures Lookup(JObject(m), key, default) ==
            (if key in m && Truthy(m[key]) then m[key] else default)
  {
    SplitWithoutSeparator(key, '.');
    assert [key][0] == key && [key][1..] == [];
    assert Walk(JObject(m), [key]) == Walk(Child(m, key), []);
  }

  /** A dotted key whose first segment is absent yields the default. */
  lemma LookupMissingSegment(m: map<string, Json>, head: string, rest: string, default: Json)
    requires '.' !in head && head !in m
    ensures Lookup(JObject(m), head + "." + rest, default) == default
  {
    LookupDescends(m, head, rest, default);
    LookupNonObject(JNull, rest, default);
  }

  /** An unloaded language is looked up in English instead. */
  lemma GetFallsBackToEnglish(cat: Catalog, key: string, language: string, default: Json)
    requires language !in cat.strings
    ensures Get(cat, key, language, default) == Get(cat, key, FallbackLanguage, default)
  {
  }

  /** For a loaded language, `get` reads the document `get_all` returns. */
  lemma GetAllAgreesWithGet(cat: Catalog, language: string, key: string, default: Json)
    requires language in cat.strings
    ensures Lookup(GetAll(cat, language), key, default) == Get(cat, key, language, default)
  {
  }

  /** `get_all` does not fall back: for an unloaded language every lookup in
      its result yields the default, even when English is loaded. */
  lemma GetAllHasNoFallback(cat: Catalog, language: string, key: string, default: Json)
    requires language !in cat.strings
    ensures Lookup(GetAll(cat, language), key, default) == default
  {
    var parts := Split(key, ".");
    var empty: map<string, Json> := map[];
    assert GetAll(cat, language) == JObject(empty);
    assert Walk(JObject(empty), parts) == Walk(JNull, parts[1..]);
    if |parts| > 1 {
      assert Walk(JNull, parts[1..]) == None;
    } else {
      assert parts[1..] == [];
    }
  }
}
