/**
 * Text localization of i18n/localization.go: translation tables keyed by
 * language, a language hierarchy (`en_us.utf8` falls back to `en_us`, then
 * `en`), first-match lookup with fallback languages, and the line-oriented
 * `.i18n` file format of `k:"…"` / `v:"…"` pairs.
 */
module I18n {
  import opened Wrappers

  // ---------------------------------------------------------------------
  // Characters and strings.
  // ---------------------------------------------------------------------

  /** The characters `hierarchy` truncates at. */
  predicate IsSep(c: char) {
    c == '.' || c == '_'
  }

  predicate NoSep(s: string) {
    forall j :: 0 <= j < |s| ==> !IsSep(s[j])
  }

  /** The number of `.` and `_` characters in `s`. */
  function SepCount(s: string): nat {
    if s == [] then 0 else SepCount(s[..|s| - 1]) + (if IsSep(s[|s| - 1]) then 1 else 0)
  }

  /** `strings.LastIndexAny(s, "._")`: the index of the last separator, or -1. */
  function LastSep(s: string): (i: int)
    ensures -1 <= i < |s|
  {
    if s == [] then -1
    else if IsSep(s[|s| - 1]) then |s| - 1
    else LastSep(s[..|s| - 1])
  }

  /** The last separator: -1 exactly when there is none, and none follows the one found. */
  lemma {:induction false} LastSepSpec(s: string)
    ensures var i := LastSep(s);
            && (i == -1 <==> NoSep(s))
            && (i >= 0 ==> IsSep(s[i]) && NoSep(s[i + 1..]))
  {
    if s != [] && !IsSep(s[|s| - 1]) {
      var t := s[..|s| - 1];
      LastSepSpec(t);
      var i := LastSep(t);
      assert forall j :: 0 <= j < |t| ==> s[j] == t[j];
      if i == -1 {
        assert NoSep(s) by {
          forall j | 0 <= j < |s| ensures !IsSep(s[j]) {
            if j < |t| { assert !IsSep(t[j]); }
          }
        }
      } else {
        assert s[i + 1..] == t[i + 1..] + [s[|s| - 1]];
      }
    }
  }

  /** Characters after position `j` that are not separators do not count. */
  lemma {:induction false} SepCountNoSepSuffix(s: string, j: nat)
    requires j <= |s| && NoSep(s[j..])
    ensures SepCount(s) == SepCount(s[..j])
    decreases |s| - j
  {
    if j < |s| {
      var t := s[..|s| - 1];
      assert t[j..] == s[j..|s| - 1];
      SepCountNoSepSuffix(t, j);
      assert t[..j] == s[..j];
      assert !IsSep(s[|s| - 1]) by { assert s[|s| - 1] == s[j..][|s| - 1 - j]; }
    } else {
      assert s[..j] == s;
    }
  }

  /** `strings.ToLower`, on the ASCII letters. */
  function Lower(s: string): string {
    seq(|s|, i requires 0 <= i < |s| => if 'A' <= s[i] <= 'Z' then (s[i] as int + 32) as char else s[i])
  }

  // ---------------------------------------------------------------------
  // hierarchy
  // ---------------------------------------------------------------------

  /** `shorter` is `longer` cut just before its last separator. */
  predicate CutAtLastSep(longer: string, shorter: string) {
    && |shorter| < |longer|
    && shorter == longer[..|shorter|]
    && IsSep(longer[|shorter|])
    && NoSep(longer[|shorter| + 1..])
  }

  /**
   * The language hierarchy of an (already lower-cased) language: the
   * language itself, then successive truncations at the last `.` or `_`.
   */
  function HierarchyOf(lang: string): seq<string>
    decreases |lang|
  {
    var i := LastSep(lang);
    if i == -1 then [lang] else [lang] + HierarchyOf(lang[..i])
  }

  /**
   * The hierarchy starts with the language, each entry is the previous one
   * cut at its last separator, the last entry has no separator, and there is
   * one entry per separator plus one.
   */
  lemma {:induction false} HierarchyShape(lang: string)
    ensures var h := HierarchyOf(lang);
            && |h| == SepCount(lang) + 1
            && h[0] == lang
            && NoSep(h[|h| - 1])
            && forall k :: 0 <= k < |h| - 1 ==> CutAtLastSep(h[k], h[k + 1])
    decreases |lang|
  {
    var i := LastSep(lang);
    LastSepSpec(lang);
    if i == -1 {
      assert SepCount(lang) == 0 by { SepCountNoSepSuffix(lang, 0); }
    } else {
      HierarchyShape(lang[..i]);
      var rest := HierarchyOf(lang[..i]);
      var h := [lang] + rest;
      assert SepCount(lang) == SepCount(lang[..i]) + 1 by {
        SepCountNoSepSuffix(lang, i + 1);
        assert lang[..i + 1][..i] == lang[..i];
      }
      assert CutAtLastSep(lang, lang[..i]);
      assert forall k :: 1 <= k < |h| - 1 ==> h[k] == rest[k - 1] && h[k + 1] == rest[k];
    }
  }

  /** One turn of the truncation loop: the language, then the hierarchy of its truncation. */
  lemma HierarchyUnfold(lang: string, i: int)
    requires i == LastSep(lang)
    ensures i == -1 ==> HierarchyOf(lang) == [lang]
    ensures i >= 0 ==> HierarchyOf(lang) == [lang] + HierarchyOf(lang[..i])
  {
  }

  /** The truncation loop of `hierarchy`. */
  method Truncations(lang: string) returns (s: seq<string>)
    ensures s == HierarchyOf(lang)
  {
    var one := lang;
    s := [];
    while true
      invariant s + HierarchyOf(one) == HierarchyOf(lang)
      decreases |one|
    {
      var i := LastSep(one);
      HierarchyUnfold(one, i);
      if i == -1 {
        s := s + [one];
        break;
      }
      assert (s + [one]) + HierarchyOf(one[..i]) == s + HierarchyOf(one);
      s, one := s + [one], one[..i];
    }
  }

  // ---------------------------------------------------------------------
  // The translation tables and the hierarchy memo.
  // ---------------------------------------------------------------------

  type Table = map<string, string>

  class Catalog {
    /** Translation table per lower-cased language (`langMap`). */
    var langMap: map<string, Table>
    /** Memo of hierarchies per lower-cased language (`hierMap`). */
    var hierMap: map<string, seq<string>>

    /** Every memoized hierarchy is the hierarchy of its key. */
    ghost predicate Valid()
      reads this
    {
      forall lang :: lang in hierMap ==> hierMap[lang] == HierarchyOf(lang)
    }

    constructor ()
      ensures Valid() && langMap == map[] && hierMap == map[]
    {
      langMap, hierMap := map[], map[];
    }

    /**
     * `hierarchy`: the hierarchy of the lower-cased language, from the memo
     * when present, otherwise built by the truncation loop and memoized.
     */
    method Hierarchy(language: string) returns (s: seq<string>)
      requires Valid()
      modifies this`hierMap
      ensures Valid()
      ensures s == HierarchyOf(Lower(language))
      ensures hierMap == old(hierMap)[Lower(language) := s]
    {
      var lang := Lower(language);
      if lang in hierMap {
        s := hierMap[lang];
        assert hierMap == hierMap[lang := s];
        return;
      }
      s := Truncations(lang);
      hierMap := hierMap[lang := s];
    }

    /**
     * `lookup`: the first table along the hierarchy of `language` that holds
     * `text` gives the translation; "" when there is none.
     */
    method Find(text: string, language: string) returns (r: string)
      requires Valid()
      modifies this`hierMap
      ensures Valid()
      ensures r == Lookup(langMap, text, language)
      ensures hierMap == old(hierMap)[Lower(language) := HierarchyOf(Lower(language))]
    {
      var h := Hierarchy(language);
      var i := 0;
      while i < |h|
        invariant 0 <= i <= |h|
        invariant LookupIn(langMap, h, text) == LookupIn(langMap, h[i..], text)
      {
        assert h[i..][0] == h[i] && h[i..][1..] == h[i + 1..];
        if h[i] in langMap && text in langMap[h[i]] {
          return langMap[h[i]][text];
        }
        i := i + 1;
      }
      return "";
    }

    /**
     * `Text`: the translation for `language`, else for the first of
     * `languages` that has one, else `text` itself.  Each hierarchy built on
     * the way is memoized.
     */
    method Translate(language: string, languages: seq<string>, text: string) returns (r: string)
      requires Valid()
      modifies this`hierMap
      ensures Valid()
      ensures r == Text(langMap, language, languages, text)
      ensures old(hierMap).Keys <= hierMap.Keys
      ensures forall l :: l in hierMap ==> l in old(hierMap) || l == Lower(language) || l in LowerAll(languages)
    {
      var all := [language] + languages;
      assert all[1..] == languages;
      r := Find(text, language);
      if r != "" {
        return;
      }
      var i := 0;
      while i < |languages|
        invariant 0 <= i <= |languages|
        invariant Valid()
        invariant FirstTranslation(langMap, all, text) == FirstTranslation(langMap, languages[i..], text)
        invariant old(hierMap).Keys <= hierMap.Keys
        invariant forall l :: l in hierMap ==> l in old(hierMap) || l == Lower(language) || l in LowerAll(languages)
      {
        assert languages[i..][0] == languages[i] && languages[i..][1..] == languages[i + 1..];
        r := Find(text, languages[i]);
        if r != "" {
          return;
        }
        i := i + 1;
      }
      r := text;
    }

    /**
     * `load`: when the file could be opened (`content` is not None), parses
     * it and registers the table under the file's language key; the result
     * lists what the source logs.
     */
    method Load(name: string, content: Option<string>, unquote: Unquoter) returns (reports: seq<Report>)
      requires HasSuffix(name, Extension)
      modifies this`langMap
      ensures content.None? ==> langMap == old(langMap) && reports == []
      ensures content.Some? ==>
                var parsed := ParseFrom(Initial, content.value, unquote);
                langMap == old(langMap)[TableKey(name) := parsed.table] && reports == parsed.reports
    {
      reports := [];
      if content.None? {
        return;
      }
      var translations;
      translations, reports := ReadTable(content.value, unquote);
      langMap := langMap[TableKey(name) := translations];
    }
  }

  /**
   * The read loop of `load`: one pass per line read up to and including the
   * next newline (the last line may lack one); the loop variables (table,
   * pending key, line numbers, what was logged) are a `ParseState` and one
   * pass of the loop body is `Step`.
   */
  method ReadTable(c: string, unquote: Unquoter) returns (translations: Table, reports: seq<Report>)
    ensures translations == ParseFrom(Initial, c, unquote).table
    ensures reports == ParseFrom(Initial, c, unquote).reports
  {
    var st := Initial;
    var rest := c;
    while true
      invariant ParseFrom(Initial, c, unquote) == ParseFrom(st, rest, unquote)
      decreases |rest|
    {
      var j := IndexOf(rest, '\n');
      if j < 0 {
        st := Step(st, rest, unquote);
        break;
      }
      ParseFromNext(st, rest, j, unquote);
      st, rest := Step(st, rest[..j + 1], unquote), rest[j + 1..];
    }
    translations, reports := st.table, st.reports;
  }

  /** A pass that found a newline goes on after it. */
  lemma ParseFromNext(st: ParseState, d: string, j: int, unquote: Unquoter)
    requires 0 <= j && j == IndexOf(d, '\n')
    ensures ParseFrom(st, d, unquote) == ParseFrom(Step(st, d[..j + 1], unquote), d[j + 1..], unquote)
  {
  }

  // ---------------------------------------------------------------------
  // lookup and Text
  // ---------------------------------------------------------------------

  /** The table of `lang` exists and translates `text`. */
  predicate Has(langMap: map<string, Table>, lang: string, text: string) {
    lang in langMap && text in langMap[lang]
  }

  /**
   * The search loop of `lookup`: the translation from the first language of
   * `langs` whose table holds `text`, or "" when none does.
   */
  function LookupIn(langMap: map<string, Table>, langs: seq<string>, text: string): (r: string)
    ensures (forall k :: 0 <= k < |langs| ==> !Has(langMap, langs[k], text)) ==> r == ""
    ensures forall k :: 0 <= k < |langs| && Has(langMap, langs[k], text)
                        && (forall j :: 0 <= j < k ==> !Has(langMap, langs[j], text))
                        ==> r == langMap[langs[k]][text]
    decreases |langs|
  {
    if langs == [] then ""
    else if Has(langMap, langs[0], text) then langMap[langs[0]][text]
    else
      var r := LookupIn(langMap, langs[1..], text);
      assert forall k :: 1 <= k < |langs| ==> langs[k] == langs[1..][k - 1];
      r
  }

  /** The lower-cased forms of some languages. */
  function LowerAll(languages: seq<string>): set<string> {
    set k | 0 <= k < |languages| :: Lower(languages[k])
  }

  /** `lookup`: search the hierarchy of the language. */
  function Lookup(langMap: map<string, Table>, text: string, language: string): string {
    LookupIn(langMap, HierarchyOf(Lower(language)), text)
  }

  /** The fallback loop of `Text` over candidate languages. */
  function FirstTranslation(langMap: map<string, Table>, candidates: seq<string>, text: string): (r: string)
    ensures (forall k :: 0 <= k < |candidates| ==> Lookup(langMap, text, candidates[k]) == "") ==> r == text
    ensures forall k :: 0 <= k < |candidates| && Lookup(langMap, text, candidates[k]) != ""
                        && (forall j :: 0 <= j < k ==> Lookup(langMap, text, candidates[j]) == "")
                        ==> r == Lookup(langMap, text, candidates[k])
    decreases |candidates|
  {
    if candidates == [] then text
    else if Lookup(langMap, text, candidates[0]) != "" then Lookup(langMap, text, candidates[0])
    else
      var r := FirstTranslation(langMap, candidates[1..], text);
      assert forall k :: 1 <= k < |candidates| ==> candidates[k] == candidates[1..][k - 1];
      r
  }

  /**
   * `Text`: the translation for `Language`, else for the first entry of
   * `Languages` that has one, else the text unchanged.
   */
  function Text(langMap: map<string, Table>, language: string, languages: seq<string>, text: string): (r: string)
    ensures Lookup(langMap, text, language) != "" ==> r == Lookup(langMap, text, language)
    ensures Lookup(langMap, text, language) == "" && (forall k :: 0 <= k < |languages| ==> Lookup(langMap, text, languages[k]) == "")
            ==> r == text
    ensures Lookup(langMap, text, language) == "" ==>
              forall k :: 0 <= k < |languages| && Lookup(langMap, text, languages[k]) != ""
                          && (forall j :: 0 <= j < k ==> Lookup(langMap, text, languages[j]) == "")
                          ==> r == Lookup(langMap, text, languages[k])
  {
    var candidates := [language] + languages;
    assert forall k :: 0 <= k < |languages| ==> languages[k] == candidates[k + 1];
    FirstTranslation(langMap, candidates, text)
  }

  // ---------------------------------------------------------------------
  // Reading lines: successive `ReadString('\n')` calls.
  // ---------------------------------------------------------------------

  /** The index of the first `ch` in `s`, or -1. */
  function IndexOf(s: string, ch: char): (i: int)
    ensures -1 <= i < |s|
    ensures i == -1 ==> ch !in s
    ensures i >= 0 ==> s[i] == ch && ch !in s[..i]
  {
    if s == [] then -1
    else if s[0] == ch then 0
    else
      var i := IndexOf(s[1..], ch);
      if i == -1 then -1
      else
        assert s[..i + 1] == [s[0]] + s[1..][..i];
        i + 1
  }

  function Flatten(lines: seq<string>): string {
    if lines == [] then "" else lines[0] + Flatten(lines[1..])
  }

  /** A line as `ReadString('\n')` returns it before the end: one newline, at its end. */
  predicate EndsLine(line: string) {
    |line| > 0 && line[|line| - 1] == '\n' && '\n' !in line[..|line| - 1]
  }

  /**
   * The lines `load` processes: everything up to and including each newline,
   * then whatever follows the last newline (possibly nothing), which is
   * processed too.  Together they are exactly the content.
   */
  function SplitLines(c: string): (lines: seq<string>)
    ensures |lines| >= 1
    ensures Flatten(lines) == c
    ensures forall k :: 0 <= k < |lines| - 1 ==> EndsLine(lines[k])
    ensures '\n' !in lines[|lines| - 1]
    decreases |c|
  {
    var i := IndexOf(c, '\n');
    if i < 0 then
      assert Flatten([c]) == c + Flatten([]);
      [c]
    else
      var line, rest := c[..i + 1], SplitLines(c[i + 1..]);
      var lines := [line] + rest;
      assert lines[1..] == rest;
      assert line + c[i + 1..] == c;
      assert EndsLine(line) by { assert line[..i] == c[..i]; }
      assert forall k :: 1 <= k < |lines| ==> lines[k] == rest[k - 1];
      lines
  }

  /** One step of the read loop. */
  lemma SplitLinesAt(c: string)
    ensures var j := IndexOf(c, '\n');
            if j < 0 then SplitLines(c) == [c] else SplitLines(c) == [c[..j + 1]] + SplitLines(c[j + 1..])
  {
  }

  /** Parsing a leading line is one step. */
  lemma ParseCons(st: ParseState, line: string, rest: seq<string>, unquote: Unquoter)
    ensures ParseLines(st, [line] + rest, unquote) == ParseLines(Step(st, line, unquote), rest, unquote)
  {
    assert ([line] + rest)[1..] == rest;
  }

  /**
   * The `load` loop over the content itself: each pass reads up to and
   * including the next newline, or the rest of the content when there is none.
   */
  function ParseFrom(st: ParseState, c: string, unquote: Unquoter): ParseState
    decreases |c|
  {
    var j := IndexOf(c, '\n');
    if j < 0 then Step(st, c, unquote) else ParseFrom(Step(st, c[..j + 1], unquote), c[j + 1..], unquote)
  }

  /** Reading the content line by line is folding `Step` over its split lines. */
  lemma {:induction false} ParseFromLines(st: ParseState, c: string, unquote: Unquoter)
    ensures ParseFrom(st, c, unquote) == ParseLines(st, SplitLines(c), unquote)
    decreases |c|
  {
    var j := IndexOf(c, '\n');
    if j < 0 {
      LastLine(c, st, unquote);
    } else {
      SplitLinesAt(c);
      ParseCons(st, c[..j + 1], SplitLines(c[j + 1..]), unquote);
      ParseFromLines(Step(st, c[..j + 1], unquote), c[j + 1..], unquote);
    }
  }

  /** With no newline left, the rest of the content is the last line. */
  lemma LastLine(d: string, st: ParseState, unquote: Unquoter)
    requires IndexOf(d, '\n') < 0
    ensures ParseLines(st, SplitLines(d), unquote) == Step(st, d, unquote)
  {
    SplitLinesAt(d);
    ParseCons(st, d, [], unquote);
    assert [d] + [] == [d];
  }


  // ---------------------------------------------------------------------
  // Parsing `.i18n` files.
  // ---------------------------------------------------------------------

  const Extension := ".i18n"

  predicate HasPrefix(s: string, p: string) {
    |p| <= |s| && s[..|p|] == p
  }

  predicate HasSuffix(s: string, p: string) {
    |p| <= |s| && s[|s| - |p|..] == p
  }

  /** The key a file's table is registered under: its lower-cased name without `.i18n`. */
  function TableKey(name: string): string
    requires HasSuffix(name, Extension)
  {
    Lower(name[..|name| - |Extension|])
  }

  /** `unicode.IsSpace`. */
  predicate IsSpace(c: char) {
    || c == '\t' || c == '\n' || c == '\U{000B}' || c == '\U{000C}' || c == '\r' || c == ' '
    || c == '\U{0085}' || c == '\U{00A0}' || c == '\U{1680}'
    || ('\U{2000}' <= c <= '\U{200A}')
    || c == '\U{2028}' || c == '\U{2029}' || c == '\U{202F}' || c == '\U{205F}' || c == '\U{3000}'
  }

  /** Drops leading white space. */
  function TrimLeft(s: string): string {
    if s == [] || !IsSpace(s[0]) then s else TrimLeft(s[1..])
  }

  /** Drops trailing white space. */
  function TrimRight(s: string): string {
    if s == [] || !IsSpace(s[|s| - 1]) then s else TrimRight(s[..|s| - 1])
  }

  /** TrimLeft drops exactly the longest all-space prefix. */
  lemma {:induction false} TrimLeftDrops(s: string)
    ensures var r := TrimLeft(s);
            && |r| <= |s| && r == s[|s| - |r|..]
            && (r == [] || !IsSpace(r[0]))
            && (forall i :: 0 <= i < |s| - |r| ==> IsSpace(s[i]))
  {
    if s != [] && IsSpace(s[0]) {
      TrimLeftDrops(s[1..]);
      var r := TrimLeft(s[1..]);
      assert forall i :: 1 <= i < |s| - |r| ==> s[i] == s[1..][i - 1];
    }
  }

  /** TrimRight drops exactly the longest all-space suffix. */
  lemma {:induction false} TrimRightDrops(s: string)
    ensures var r := TrimRight(s);
            && |r| <= |s| && r == s[..|r|]
            && (r == [] || !IsSpace(r[|r| - 1]))
            && (forall i :: |r| <= i < |s| ==> IsSpace(s[i]))
  {
    if s != [] && IsSpace(s[|s| - 1]) {
      TrimRightDrops(s[..|s| - 1]);
      var r := TrimRight(s[..|s| - 1]);
      assert r == s[..|r|];
    }
  }

  predicate AllSpace(w: string) {
    forall i :: 0 <= i < |w| ==> IsSpace(w[i])
  }

  /** Leading spaces before text that does not start with one are all that TrimLeft removes. */
  lemma {:induction false} TrimLeftSpaces(w: string, t: string)
    requires AllSpace(w) && (t == [] || !IsSpace(t[0]))
    ensures TrimLeft(w + t) == t
    decreases |w|
  {
    if w == [] {
      assert w + t == t;
    } else {
      assert (w + t)[0] == w[0];
      assert (w + t)[1..] == w[1..] + t;
      TrimLeftSpaces(w[1..], t);
    }
  }

  /** Trailing spaces after text that does not end with one are all that TrimRight removes. */
  lemma {:induction false} TrimRightSpaces(t: string, w: string)
    requires AllSpace(w) && (t == [] || !IsSpace(t[|t| - 1]))
    ensures TrimRight(t + w) == t
    decreases |w|
  {
    if w == [] {
      assert t + w == t;
    } else {
      assert (t + w)[|t + w| - 1] == w[|w| - 1];
      assert (t + w)[..|t + w| - 1] == t + w[..|w| - 1];
      TrimRightSpaces(t, w[..|w| - 1]);
    }
  }

  /** TrimSpace removes exactly the spaces around text with no space at either end. */
  lemma TrimSpaceExact(w1: string, q: string, w2: string)
    requires AllSpace(w1) && AllSpace(w2)
    requires q == [] || (!IsSpace(q[0]) && !IsSpace(q[|q| - 1]))
    ensures TrimSpace(w1 + q + w2) == q
  {
    assert w1 + q + w2 == w1 + (q + w2);
    if q == [] {
      assert AllSpace(w1 + w2) by {
        forall i | 0 <= i < |w1 + w2| ensures IsSpace((w1 + w2)[i]) {
          if i >= |w1| { assert (w1 + w2)[i] == w2[i - |w1|]; }
        }
      }
      assert w1 + q + w2 == (w1 + w2) + [];
      TrimLeftSpaces(w1 + w2, []);
    } else {
      assert (q + w2)[0] == q[0];
      TrimLeftSpaces(w1, q + w2);
      TrimRightSpaces(q, w2);
    }
  }

  /** `strings.TrimSpace`. */
  function TrimSpace(s: string): string {
    TrimRight(TrimLeft(s))
  }

  /** `strconv.Unquote`, left abstract: None for malformed quoted text. */
  type Unquoter = string -> Option<string>

  datatype Label = KeyLabel | ValueLabel

  /** What `load` and `extract` log, with the line numbers they log. */
  datatype Report = ValueMissing(keyLine: nat) | NoKey(line: nat) | Malformed(part: Label, line: nat)

  /**
   * `extract`: unquotes the trimmed text after the two-character prefix; on
   * malformed text it logs and yields "".
   */
  function Extract(line: string, part: Label, lineNum: nat, unquote: Unquoter): (string, seq<Report>)
    requires |line| >= 2
  {
    match unquote(TrimSpace(line[2..]))
    case None => ("", [Malformed(part, lineNum)])
    case Some(s) => (s, [])
  }

  /**
   * White space around the quoted text does not matter: a line made of the
   * prefix, spaces, the text `q` and spaces extracts as the prefix followed
   * directly by `q` does, which is `q` unquoted, or "" with one report of a
   * malformed part exactly when `q` does not unquote.
   */
  lemma ExtractIgnoresSpace(p: string, w1: string, q: string, w2: string, part: Label, lineNum: nat, unquote: Unquoter)
    requires |p| == 2 && AllSpace(w1) && AllSpace(w2)
    requires q == [] || (!IsSpace(q[0]) && !IsSpace(q[|q| - 1]))
    ensures var r := Extract(p + w1 + q + w2, part, lineNum, unquote);
            && r == Extract(p + q, part, lineNum, unquote)
            && (r.1 == [Malformed(part, lineNum)] <==> unquote(q).None?)
            && (r.1 == [] <==> unquote(q).Some?)
            && r.0 == (if unquote(q).Some? then unquote(q).value else "")
  {
    assert (p + w1 + q + w2)[2..] == w1 + q + w2;
    assert (p + q)[2..] == q;
    TrimSpaceExact(w1, q, w2);
    TrimSpaceExact([], q, []);
    assert [] + q + [] == q;
  }

  /** The variables of the `load` loop. A key is pending when it is not "". */
  datatype ParseState = ParseState(table: Table, key: string, lineNum: nat, lastKeyLine: nat, reports: seq<Report>)

  const Initial := ParseState(map[], "", 0, 0, [])

  /** One pass of the `load` loop body over one line. */
  function Step(st: ParseState, line: string, unquote: Unquoter): ParseState
  {
    var n := st.lineNum + 1;
    if HasPrefix(line, "k:") then
      var missing := if st.key != "" then [ValueMissing(st.lastKeyLine)] else [];
      var e := Extract(line, KeyLabel, n, unquote);
      st.(key := e.0, lineNum := n, lastKeyLine := if e.0 != "" then n else st.lastKeyLine,
          reports := st.reports + missing + e.1)
    else if HasPrefix(line, "v:") then
      if st.key == "" then
        st.(lineNum := n, reports := st.reports + [NoKey(n)])
      else
        var e := Extract(line, ValueLabel, n, unquote);
        if e.0 != "" then
          st.(table := st.table[st.key := e.0], key := "", lineNum := n, reports := st.reports + e.1)
        else
          st.(lineNum := n, reports := st.reports + e.1)
    else
      st.(lineNum := n)
  }

  /** A `k:` line reports a key still pending and makes its text the pending key. */
  lemma StepKeyLine(st: ParseState, line: string, unquote: Unquoter)
    requires HasPrefix(line, "k:")
    ensures var r, e := Step(st, line, unquote), Extract(line, KeyLabel, st.lineNum + 1, unquote);
            && r.lineNum == st.lineNum + 1
            && r.table == st.table
            && r.key == e.0
            && r.lastKeyLine == (if e.0 != "" then st.lineNum + 1 else st.lastKeyLine)
            && r.reports == st.reports + (if st.key != "" then [ValueMissing(st.lastKeyLine)] else []) + e.1
  {
  }

  /**
   * A `v:` line with no pending key is reported and ignored; one with a
   * non-empty value stores it under the pending key and clears the key,
   * while an empty or malformed value stores nothing and leaves the key
   * pending.
   */
  lemma StepValueLine(st: ParseState, line: string, unquote: Unquoter)
    requires HasPrefix(line, "v:")
    ensures st.key == "" ==>
              Step(st, line, unquote) == st.(lineNum := st.lineNum + 1, reports := st.reports + [NoKey(st.lineNum + 1)])
    ensures st.key != "" ==>
              var r, e := Step(st, line, unquote), Extract(line, ValueLabel, st.lineNum + 1, unquote);
              && r.lineNum == st.lineNum + 1
              && r.lastKeyLine == st.lastKeyLine
              && r.reports == st.reports + e.1
              && (e.0 != "" ==> r.table == st.table[st.key := e.0] && r.key == "")
              && (e.0 == "" ==> r.table == st.table && r.key == st.key)
  {
    assert !HasPrefix(line, "k:") by { assert line[..2][0] == 'v'; }
  }

  /** Any other line only advances the line number. */
  lemma StepOtherLine(st: ParseState, line: string, unquote: Unquoter)
    requires !HasPrefix(line, "k:") && !HasPrefix(line, "v:")
    ensures Step(st, line, unquote) == st.(lineNum := st.lineNum + 1)
  {
  }

  /** The `load` loop over a sequence of lines. */
  function ParseLines(st: ParseState, lines: seq<string>, unquote: Unquoter): ParseState
    decreases |lines|
  {
    if lines == [] then st else ParseLines(Step(st, lines[0], unquote), lines[1..], unquote)
  }

  /** Neither empty keys nor empty values are ever stored. */
  ghost predicate NoEmpty(t: Table) {
    forall k :: k in t ==> k != "" && t[k] != ""
  }

  lemma {:induction false} ParseStoresNoEmpty(st: ParseState, lines: seq<string>, unquote: Unquoter)
    requires NoEmpty(st.table)
    ensures NoEmpty(ParseLines(st, lines, unquote).table)
    decreases |lines|
  {
    if lines != [] {
      ParseStoresNoEmpty(Step(st, lines[0], unquote), lines[1..], unquote);
    }
  }

  /** A loaded table holds no empty key and no empty translation. */
  lemma ReadTableNoEmpty(c: string, unquote: Unquoter)
    ensures NoEmpty(ParseFrom(Initial, c, unquote).table)
  {
    ParseFromLines(Initial, c, unquote);
    ParseStoresNoEmpty(Initial, SplitLines(c), unquote);
  }

  lemma {:induction false} ParseLinesAppend(st: ParseState, a: seq<string>, b: seq<string>, unquote: Unquoter)
    ensures ParseLines(st, a + b, unquote) == ParseLines(ParseLines(st, a, unquote), b, unquote)
    decreases |a|
  {
    if a == [] {
      assert a + b == b;
    } else {
      var next := Step(st, a[0], unquote);
      assert (a + b)[0] == a[0] && (a + b)[1..] == a[1..] + b;
      assert ParseLines(st, a + b, unquote) == ParseLines(next, a[1..] + b, unquote);
      assert ParseLines(st, a, unquote) == ParseLines(next, a[1..], unquote);
      ParseLinesAppend(next, a[1..], b, unquote);
    }
  }

  /**
   * Line numbers and reports never feed back into what is stored: from the
   * same table and pending key, the same lines end in the same table and
   * pending key.
   */
  lemma {:induction false} ParseIgnoresCount(st1: ParseState, st2: ParseState, lines: seq<string>, unquote: Unquoter)
    requires st1.table == st2.table && st1.key == st2.key
    ensures ParseLines(st1, lines, unquote).table == ParseLines(st2, lines, unquote).table
    ensures ParseLines(st1, lines, unquote).key == ParseLines(st2, lines, unquote).key
    decreases |lines|
  {
    if lines != [] {
      var line := lines[0];
      if HasPrefix(line, "k:") || HasPrefix(line, "v:") {
        assert Extract(line, KeyLabel, st1.lineNum + 1, unquote).0 == Extract(line, KeyLabel, st2.lineNum + 1, unquote).0;
        assert Extract(line, ValueLabel, st1.lineNum + 1, unquote).0 == Extract(line, ValueLabel, st2.lineNum + 1, unquote).0;
      }
      ParseIgnoresCount(Step(st1, line, unquote), Step(st2, line, unquote), lines[1..], unquote);
    }
  }

  /**
   * A line that is neither a key nor a value, inserted anywhere into a
   * file's lines, changes neither the loaded table nor the key left pending.
   */
  lemma OtherLineIgnored(st: ParseState, before: seq<string>, line: string, after: seq<string>, unquote: Unquoter)
    requires !HasPrefix(line, "k:") && !HasPrefix(line, "v:")
    ensures ParseLines(st, before + [line] + after, unquote).table == ParseLines(st, before + after, unquote).table
    ensures ParseLines(st, before + [line] + after, unquote).key == ParseLines(st, before + after, unquote).key
  {
    var mid := ParseLines(st, before, unquote);
    assert before + [line] + after == before + ([line] + after);
    ParseLinesAppend(st, before, [line] + after, unquote);
    ParseLinesAppend(st, before, after, unquote);
    assert ([line] + after)[0] == line && ([line] + after)[1..] == after;
    StepOtherLine(mid, line, unquote);
    ParseIgnoresCount(Step(mid, line, unquote), mid, after, unquote);
  }

  // ---------------------------------------------------------------------
  // Round trip: a file written as k:/v: pairs loads back into its table.
  // ---------------------------------------------------------------------

  /** What `quote` produces: non-empty, one line, no white space at either end. */
  predicate Trimmed(q: string) {
    |q| > 0 && !IsSpace(q[0]) && !IsSpace(q[|q| - 1]) && '\n' !in q
  }

  /** `quote` is a quoting function that `unquote` inverts. */
  ghost predicate Inverts(quote: string -> string, unquote: Unquoter) {
    forall s :: Trimmed(quote(s)) && unquote(quote(s)) == Some(s)
  }

  /** The lines of a file holding the given pairs, in order. */
  function Render(entries: seq<(string, string)>, quote: string -> string): seq<string>
    decreases |entries|
  {
    if entries == [] then []
    else ["k:" + quote(entries[0].0) + "\n", "v:" + quote(entries[0].1) + "\n"] + Render(entries[1..], quote)
  }

  /** The table after storing the pairs in order: a later pair for a key wins. */
  function Inserted(t: Table, entries: seq<(string, string)>): Table
    decreases |entries|
  {
    if entries == [] then t else Inserted(t[entries[0].0 := entries[0].1], entries[1..])
  }

  lemma TrimQuoted(q: string)
    requires Trimmed(q)
    ensures TrimSpace(q + "\n") == q
  {
    var s := q + "\n";
    var l := TrimLeft(s);
    assert !IsSpace(s[0]);
    assert l == s;
    var r := TrimRight(l);
    assert !IsSpace(l[|q| - 1]) && IsSpace(l[|l| - 1]);
    assert l[..|l| - 1] == q;
    assert r == TrimRight(q);
  }

  /** One rendered pair: its two lines store the pair and log nothing. */
  lemma ParsePair(st: ParseState, k: string, v: string, quote: string -> string, unquote: Unquoter)
    requires Inverts(quote, unquote) && st.key == "" && k != "" && v != ""
    ensures var st2 := Step(Step(st, "k:" + quote(k) + "\n", unquote), "v:" + quote(v) + "\n", unquote);
            st2.table == st.table[k := v] && st2.key == "" && st2.reports == st.reports
  {
    var kq, vq := quote(k), quote(v);
    var kline, vline := "k:" + kq + "\n", "v:" + vq + "\n";
    assert kline[2..] == kq + "\n" && vline[2..] == vq + "\n";
    assert vline[..2] == "v:" && kline[..2] == "k:";
    TrimQuoted(kq);
    TrimQuoted(vq);
    var st1 := Step(st, kline, unquote);
    StepKeyLine(st, kline, unquote);
    assert Extract(kline, KeyLabel, st1.lineNum, unquote) == (k, []);
    var st2 := Step(st1, vline, unquote);
    StepValueLine(st1, vline, unquote);
    assert Extract(vline, ValueLabel, st2.lineNum, unquote) == (v, []);
  }

  /** Parsing two leading lines is two steps. */
  lemma ParseTwo(st: ParseState, a: string, b: string, rest: seq<string>, unquote: Unquoter)
    ensures ParseLines(st, [a, b] + rest, unquote) == ParseLines(Step(Step(st, a, unquote), b, unquote), rest, unquote)
  {
    assert ([a, b] + rest)[1..] == [b] + rest;
    assert ([b] + rest)[1..] == rest;
  }

  /** Parsing rendered pairs stores each pair, logs nothing and leaves no key pending. */
  lemma {:induction false} ParseRendered(st: ParseState, entries: seq<(string, string)>,
                                         quote: string -> string, unquote: Unquoter)
    requires Inverts(quote, unquote) && st.key == ""
    requires forall e :: e in entries ==> e.0 != "" && e.1 != ""
    ensures ParseLines(st, Render(entries, quote), unquote).table == Inserted(st.table, entries)
    ensures ParseLines(st, Render(entries, quote), unquote).key == ""
    ensures ParseLines(st, Render(entries, quote), unquote).reports == st.reports
    decreases |entries|
  {
    if entries != [] {
      var (k, v) := entries[0];
      var kline, vline := "k:" + quote(k) + "\n", "v:" + quote(v) + "\n";
      var rest := Render(entries[1..], quote);
      assert entries[0] in entries;
      ParsePair(st, k, v, quote, unquote);
      var st2 := Step(Step(st, kline, unquote), vline, unquote);
      assert Render(entries, quote) == [kline, vline] + rest;
      ParseTwo(st, kline, vline, rest, unquote);
      assert forall e :: e in entries[1..] ==> e in entries;
      ParseRendered(st2, entries[1..], quote, unquote);
    }
  }

  /** Appending to a non-empty sequence appends to its tail. */
  lemma ConsAppend<T>(xs: seq<T>, y: T)
    requires xs != []
    ensures xs + [y] == [xs[0]] + (xs[1..] + [y])
  {
  }

  /** Content made of whole lines splits back into those lines, plus the empty tail. */
  lemma {:induction false} SplitFlatten(lines: seq<string>)
    requires forall k :: 0 <= k < |lines| ==> EndsLine(lines[k])
    ensures SplitLines(Flatten(lines)) == lines + [""]
    decreases |lines|
  {
    if lines == [] {
      assert IndexOf("", '\n') == -1;
    } else {
      var l, rest := lines[0], Flatten(lines[1..]);
      var c := Flatten(lines);
      assert c == l + rest;
      IndexOfLine(l, rest);
      SplitLinesAt(c);
      assert c[..|l|] == l && c[|l|..] == rest;
      SplitFlatten(lines[1..]);
      ConsAppend(lines, "");
    }
  }

  /** The first newline of a line followed by more text is the line's own. */
  lemma {:induction false} IndexOfLine(l: string, rest: string)
    requires EndsLine(l)
    ensures IndexOf(l + rest, '\n') == |l| - 1
    decreases |l|
  {
    if |l| > 1 {
      assert l[0] != '\n' by { assert l[0] == l[..|l| - 1][0]; }
      assert (l + rest)[1..] == l[1..] + rest;
      assert l[1..][..|l| - 2] == l[..|l| - 1][1..];
      IndexOfLine(l[1..], rest);
    }
  }

  lemma {:induction false} RenderEndsLines(entries: seq<(string, string)>, quote: string -> string)
    requires forall s :: Trimmed(quote(s))
    ensures forall k :: 0 <= k < |Render(entries, quote)| ==> EndsLine(Render(entries, quote)[k])
    decreases |entries|
  {
    if entries != [] {
      RenderEndsLines(entries[1..], quote);
      var kq, vq := quote(entries[0].0), quote(entries[0].1);
      assert ("k:" + kq + "\n")[..|kq| + 2] == "k:" + kq;
      assert ("v:" + vq + "\n")[..|vq| + 2] == "v:" + vq;
    }
  }

  /**
   * A `.i18n` file written as k:/v: lines for non-empty pairs loads into
   * exactly those pairs (the last pair for a key wins) and logs nothing.
   */
  lemma LoadRendered(entries: seq<(string, string)>, quote: string -> string, unquote: Unquoter)
    requires Inverts(quote, unquote)
    requires forall e :: e in entries ==> e.0 != "" && e.1 != ""
    ensures var parsed := ParseFrom(Initial, Flatten(Render(entries, quote)), unquote);
            parsed.table == Inserted(map[], entries) && parsed.reports == []
  {
    var lines := Render(entries, quote);
    ParseFromLines(Initial, Flatten(lines), unquote);
    RenderEndsLines(entries, quote);
    SplitFlatten(lines);
    ParseLinesAppend(Initial, lines, [""], unquote);
    ParseRendered(Initial, entries, quote, unquote);
    assert !HasPrefix("", "k:") && !HasPrefix("", "v:");
    assert ParseLines(ParseLines(Initial, lines, unquote), [""], unquote)
        == Step(ParseLines(Initial, lines, unquote), "", unquote);
  }
}
