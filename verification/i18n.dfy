/** The localizer of `internal/i18n`: key lookup with an English fallback,
    `{placeholder}` substitution through the hand-written `indexOf` and
    `replaceAll` loops, and the normalisation of client language codes.
    The decoded locale files are an input (`Translations`). */
module I18n {

  /** language -> (key -> text) */
  type Translations = map<string, map<string, string>>

  const English := "en"
  const Ukrainian := "uk"

  predicate HasTranslation(tr: Translations, lang: string, key: string) {
    lang in tr && key in tr[lang]
  }

  /** `Localizer.Get`: the language's own text, else the English text (for a
      language other than English), else the key itself. */
  function Get(tr: Translations, lang: string, key: string): (r: string)
    ensures HasTranslation(tr, lang, key) ==> r == tr[lang][key]
    ensures !HasTranslation(tr, lang, key) && lang != English && HasTranslation(tr, English, key) ==>
              r == tr[English][key]
    ensures !HasTranslation(tr, lang, key) && (lang == English || !HasTranslation(tr, English, key)) ==>
              r == key
  {
    if HasTranslation(tr, lang, key) then tr[lang][key]
    else if lang != English && HasTranslation(tr, English, key) then tr[English][key]
    else key
  }

  /** `sub` occurs in `s` starting at index `i`. */
  predicate OccursAt(s: string, sub: string, i: int) {
    0 <= i && i + |sub| <= |s| && s[i..i + |sub|] == sub
  }

  /** `i` is where `sub` first occurs in `s`, or -1 when it does not occur. */
  ghost predicate IsFirstOccurrence(s: string, sub: string, i: int) {
    (i == -1 || OccursAt(s, sub, i)) &&
    forall j :: 0 <= j && (i == -1 || j < i) ==> !OccursAt(s, sub, j)
  }

  /** `indexOf`: scans the start positions 0 .. len(s)-len(substr) in order
      and returns the first that matches, or -1. */
  method IndexOf(s: string, sub: string) returns (idx: int)
    ensures idx == -1 || 0 <= idx <= |s| - |sub|
    ensures IsFirstOccurrence(s, sub, idx)
  {
    var i := 0;
    while i <= |s| - |sub|
      invariant 0 <= i
      invariant forall j :: 0 <= j < i ==> !OccursAt(s, sub, j)
      decreases |s| - |sub| + 1 - i
    {
      if s[i..i + |sub|] == sub {
        return i;
      }
      i := i + 1;
    }
    return -1;
  }

  /** Left-to-right, non-overlapping replacement of every occurrence of
      `pattern` by `replacement`, defined one character at a time. */
  function Replaced(s: string, pattern: string, replacement: string): (r: string)
    requires |pattern| > 0
    ensures |replacement| <= |pattern| ==> |r| <= |s|
    ensures |replacement| >= |pattern| ==> |r| >= |s|
    decreases |s|
  {
    if |s| < |pattern| then s
    else if s[..|pattern|] == pattern then replacement + Replaced(s[|pattern|..], pattern, replacement)
    else [s[0]] + Replaced(s[1..], pattern, replacement)
  }

  /** Dropping the first character shifts every occurrence left by one. */
  lemma {:induction false} NoOccurrenceAfterFirst(s: string, sub: string, bound: int)
    requires |s| > 0
    requires forall j :: 0 <= j && (bound == -1 || j < bound) ==> !OccursAt(s, sub, j)
    ensures forall j :: 0 <= j && (bound == -1 || j < bound - 1) ==> !OccursAt(s[1..], sub, j)
  {
    forall j | 0 <= j && (bound == -1 || j < bound - 1)
      ensures !OccursAt(s[1..], sub, j)
    {
      assert !OccursAt(s, sub, j + 1);
      if j + |sub| <= |s| - 1 {
        assert s[1..][j..j + |sub|] == s[j + 1..j + 1 + |sub|];
      }
    }
  }

  /** With no occurrence, `Replaced` leaves the text unchanged. */
  lemma {:induction false} ReplacedWithoutOccurrence(s: string, pattern: string, replacement: string)
    requires |pattern| > 0
    requires IsFirstOccurrence(s, pattern, -1)
    ensures Replaced(s, pattern, replacement) == s
    decreases |s|
  {
    if |s| >= |pattern| {
      assert !OccursAt(s, pattern, 0);
      NoOccurrenceAfterFirst(s, pattern, -1);
      ReplacedWithoutOccurrence(s[1..], pattern, replacement);
      assert s == [s[0]] + s[1..];
    }
  }

  /** The jump `replaceAll` makes: the text before the first occurrence is
      kept, the occurrence becomes the replacement and the rest is replaced
      in turn. */
  lemma {:induction false} ReplacedAtOccurrence(s: string, pattern: string, replacement: string, i: nat)
    requires |pattern| > 0
    requires IsFirstOccurrence(s, pattern, i)
    ensures Replaced(s, pattern, replacement) ==
            s[..i] + replacement + Replaced(s[i + |pattern|..], pattern, replacement)
  {
    ReplacedKeepsPrefix(s, pattern, replacement, i);
    var u := s[i..];
    assert u[..|pattern|] == s[i..i + |pattern|];
    assert u[|pattern|..] == s[i + |pattern|..];
  }

  /** Where no occurrence starts, `Replaced` copies one character. */
  lemma {:induction false} ReplacedCopiesOne(u: string, pattern: string, replacement: string)
    requires |pattern| > 0 && |u| > 0 && !(|pattern| <= |u| && u[..|pattern|] == pattern)
    ensures Replaced(u, pattern, replacement) == [u[0]] + Replaced(u[1..], pattern, replacement)
  {
    if |u| < |pattern| {
      assert u == [u[0]] + u[1..];
    }
  }

  /** The text before the first `k` positions, none of which starts an
      occurrence, is copied unchanged. */
  lemma {:induction false} ReplacedKeepsPrefix(s: string, pattern: string, replacement: string, k: nat)
    requires |pattern| > 0 && k <= |s|
    requires forall j :: 0 <= j < k ==> !OccursAt(s, pattern, j)
    ensures Replaced(s, pattern, replacement) == s[..k] + Replaced(s[k..], pattern, replacement)
    decreases k
  {
    if k == 0 {
      assert s[..0] + Replaced(s[0..], pattern, replacement) == Replaced(s, pattern, replacement);
    } else {
      ReplacedKeepsPrefix(s, pattern, replacement, k - 1);
      KeepsPrefixStep(s, pattern, replacement, k);
    }
  }

  lemma {:induction false} KeepsPrefixStep(s: string, pattern: string, replacement: string, k: nat)
    requires |pattern| > 0 && 0 < k <= |s| && !OccursAt(s, pattern, k - 1)
    requires Replaced(s, pattern, replacement) == s[..k - 1] + Replaced(s[k - 1..], pattern, replacement)
    ensures Replaced(s, pattern, replacement) == s[..k] + Replaced(s[k..], pattern, replacement)
  {
    var u := s[k - 1..];
    NoOccurrenceAtHead(s, pattern, k - 1);
    ReplacedCopiesOne(u, pattern, replacement);
    assert u[1..] == s[k..];
    var rest := Replaced(s[k..], pattern, replacement);
    PrefixGrows(s[..k - 1], u[0], rest, s[..k]);
  }

  lemma {:induction false} PrefixGrows(pre: string, c: char, rest: string, longer: string)
    requires longer == pre + [c]
    ensures pre + ([c] + rest) == longer + rest
  {
  }

  /** No occurrence at `i` means the suffix from `i` does not open with the
      pattern. */
  lemma {:induction false} NoOccurrenceAtHead(s: string, pattern: string, i: nat)
    requires i < |s| && !OccursAt(s, pattern, i)
    ensures var u := s[i..]; !(|pattern| <= |u| && u[..|pattern|] == pattern)
  {
    var u := s[i..];
    if |pattern| <= |u| {
      assert u[..|pattern|] == s[i..i + |pattern|];
    }
  }

  /** One iteration of `replaceAll`'s loop keeps `acc + Replaced(rest)`. */
  lemma {:induction false} AccumulateOccurrence(acc: string, rest: string, pattern: string, replacement: string, i: nat)
    requires |pattern| > 0 && IsFirstOccurrence(rest, pattern, i)
    ensures i + |pattern| <= |rest|
    ensures (acc + rest[..i] + replacement) + Replaced(rest[i + |pattern|..], pattern, replacement) ==
            acc + Replaced(rest, pattern, replacement)
  {
    ReplacedAtOccurrence(rest, pattern, replacement, i);
  }

  /** `replaceAll`: the result accumulates the text before each match and the
      replacement, and the rest after the last match. The source loops forever
      on an empty pattern, so a non-empty one is required. */
  method ReplaceAll(str: string, pattern: string, replacement: string) returns (result: string)
    requires |pattern| > 0
    ensures result == Replaced(str, pattern, replacement)
  {
    result := "";
    var rest := str;
    while true
      invariant result + Replaced(rest, pattern, replacement) == Replaced(str, pattern, replacement)
      decreases |rest|
    {
      var idx := IndexOf(rest, pattern);
      if idx == -1 {
        ReplacedWithoutOccurrence(rest, pattern, replacement);
        result := result + rest;
        break;
      }
      AccumulateOccurrence(result, rest, pattern, replacement, idx);
      result := result + rest[..idx] + replacement;
      rest := rest[idx + |pattern|..];
    }
  }

  /** Replacing a pattern by itself gives back the input. */
  lemma {:induction false} ReplacedBySelf(s: string, pattern: string)
    requires |pattern| > 0
    ensures Replaced(s, pattern, pattern) == s
    decreases |s|
  {
    if |s| >= |pattern| {
      if s[..|pattern|] == pattern {
        ReplacedBySelf(s[|pattern|..], pattern);
        assert s == s[..|pattern|] + s[|pattern|..];
      } else {
        ReplacedBySelf(s[1..], pattern);
        assert s == [s[0]] + s[1..];
      }
    }
  }

  /** A replacement as long as the pattern keeps the length. */
  lemma {:induction false} ReplacedKeepsLength(s: string, pattern: string, replacement: string)
    requires |pattern| > 0 && |replacement| == |pattern|
    ensures |Replaced(s, pattern, replacement)| == |s|
    decreases |s|
  {
    if |s| >= |pattern| {
      if s[..|pattern|] == pattern {
        ReplacedKeepsLength(s[|pattern|..], pattern, replacement);
      } else {
        ReplacedKeepsLength(s[1..], pattern, replacement);
      }
    }
  }

  /** The `{key}` token `GetWithData` substitutes. */
  function Placeholder(key: string): (p: string)
    ensures |p| == |key| + 2 && p[0] == '{' && p[|p| - 1] == '}'
    ensures p[1..|p| - 1] == key
  {
    "{" + key + "}"
  }

  /** Applies the (key, value) pairs in order, each through `Replaced`. */
  function Filled(text: string, data: seq<(string, string)>): string
  {
    if data == [] then text
    else
      var (k, v) := data[|data| - 1];
      Replaced(Filled(text, data[..|data| - 1]), Placeholder(k), v)
  }

  /** `GetWithData`: the translation, then every placeholder of `data`
      replaced in turn. `data` lists the map's entries in the order the loop
      visits them. */
  method GetWithData(tr: Translations, lang: string, key: string, data: seq<(string, string)>)
    returns (translation: string)
    ensures translation == Filled(Get(tr, lang, key), data)
    ensures data == [] ==> translation == Get(tr, lang, key)
  {
    translation := Get(tr, lang, key);
    for i := 0 to |data|
      invariant translation == Filled(Get(tr, lang, key), data[..i])
    {
      var (k, v) := data[i];
      assert data[..i + 1][..i] == data[..i];
      translation := ReplaceAll(translation, Placeholder(k), v);
    }
    assert data[..|data|] == data;
  }

  /** A text that holds none of the placeholders comes out unchanged. */
  lemma {:induction false} FilledWithoutPlaceholders(text: string, data: seq<(string, string)>)
    requires forall i :: 0 <= i < |data| ==> IsFirstOccurrence(text, Placeholder(data[i].0), -1)
    ensures Filled(text, data) == text
  {
    if data != [] {
      var (k, v) := data[|data| - 1];
      FilledWithoutPlaceholders(text, data[..|data| - 1]);
      ReplacedWithoutOccurrence(Filled(text, data[..|data| - 1]), Placeholder(k), v);
    }
  }

  /** `NormalizeLanguageCode`: the two-character prefix "uk" or "ua" selects
      Ukrainian; everything else, the empty code included, is English. */
  function NormalizeLanguageCode(code: string): (r: string)
    ensures r == English || r == Ukrainian
    ensures r == Ukrainian <==> |code| >= 2 && (code[..2] == "uk" || code[..2] == "ua")
  {
    if code == "" then English
    else if |code| >= 2 then
      var prefix := code[..2];
      if prefix == "en" then English
      else if prefix == "uk" || prefix == "ua" then Ukrainian
      else English
    else English
  }
}
