/**
 * The name and word cleaners of getData/allCoursesW3schoolsCrawling.py:
 * `sanitize_filename` turns a course name into a lower_snake file name, and
 * `clean_word` normalises a candidate glossary term or rejects it.
 *
 * `\w` and `str.lower` are taken on ASCII letters, digits and `_`; `\s` and
 * `str.strip()` use Python's full whitespace set.
 */
module Cleaning {
  import opened Sequences
  import opened PyText

  const StopWords: set<string> := {
    "the", "and", "for", "with", "from", "this", "that", "these", "those",
    "click", "here", "your", "about", "into", "over", "under", "while",
    "example", "examples", "tutorial", "introduction", "learn", "default"
  }

  const JunkWords: set<string> := {
    "sales", "services", "contact", "analytics", "certificate", "certificates", "subscribe"
  }

  const BadTerms: set<string> := {
    "tutorial", "tutorials", "tip", "tips", "spaces", "w3", "w3css", "w3 css",
    "w3schools", "navbar", "vertical", "building", "web building",
    "default", "introduction", "learn", "overview", "home", "reference", "references"
  }

  /** `\w`: an ASCII letter, digit or underscore. */
  predicate IsWordChar(c: char)
  {
    'a' <= c <= 'z' || 'A' <= c <= 'Z' || '0' <= c <= '9' || c == '_'
  }

  predicate IsUnderscore(c: char) { c == '_' }

  // ------------------------------------------------------- sanitize_filename

  /** What `[^\w\s-]` does not match: the characters the first substitution keeps. */
  predicate KeptInName(c: char)
  {
    IsWordChar(c) || IsSpace(c) || c == '-'
  }

  /** The characters a sanitised file name is made of. */
  predicate IsFileNameChar(c: char)
  {
    'a' <= c <= 'z' || '0' <= c <= '9' || c == '_' || c == '-'
  }

  /** A file-system-safe lower_snake name: non-empty, `[a-z0-9_-]` only, no `_` at either end. */
  predicate IsFileName(n: string)
  {
    n != [] && n[0] != '_' && n[|n| - 1] != '_'
    && forall i :: 0 <= i < |n| ==> IsFileNameChar(n[i])
  }

  /** `sanitize_filename(name)`. */
  function SanitizeFilename(name: string): (r: string)
    ensures IsFileName(r)
  {
    var lowered := Lower(Strip(name));
    var kept := Filter(lowered, KeptInName);
    var snake := SubSpaceRuns(kept, '_');
    var n := StripBy(snake, IsUnderscore);
    SanitizeChars(lowered, kept, snake, n);
    if n == [] then FallbackName() else n
  }

  /** The name used when nothing of the course name survives. */
  function FallbackName(): (r: string)
    ensures IsFileName(r)
  {
    var r := "course";
    assert forall i :: 0 <= i < |r| ==> 'a' <= r[i] <= 'z';
    r
  }

  lemma SanitizeChars(lowered: string, kept: string, snake: string, n: string)
    requires forall i :: 0 <= i < |lowered| ==> !('A' <= lowered[i] <= 'Z')
    requires kept == Filter(lowered, KeptInName)
    requires snake == SubSpaceRuns(kept, '_')
    requires n == StripBy(snake, IsUnderscore)
    ensures n == [] || (n[0] != '_' && n[|n| - 1] != '_')
    ensures forall i :: 0 <= i < |n| ==> IsFileNameChar(n[i])
  {
    StripByFacts(snake, IsUnderscore);
    StripByChars(snake, IsUnderscore);
    SubSpaceRunsChars(kept, '_');
    forall i | 0 <= i < |n| ensures IsFileNameChar(n[i]) {
      var c := n[i];
      assert c in snake;
      if c != '_' {
        assert c in kept && !IsSpace(c);
        assert c in lowered && KeptInName(c);
      }
    }
  }

  /** Sanitising a sanitised name changes nothing. */
  lemma SanitizeFilenameIdempotent(name: string)
    ensures SanitizeFilename(SanitizeFilename(name)) == SanitizeFilename(name)
  {
    var n := SanitizeFilename(name);
    FileNameIsFixed(n);
  }

  /** Every lower_snake name is its own sanitised form. */
  lemma FileNameIsFixed(n: string)
    requires IsFileName(n)
    ensures SanitizeFilename(n) == n
  {
    assert forall i :: 0 <= i < |n| ==> !IsSpace(n[i]);
    StripOfStripped(n, IsSpace);
    assert Lower(n) == n;
    FilterKeepsAll(n, KeptInName);
    SubSpaceRunsOfSingle(n, '_');
    StripOfStripped(n, IsUnderscore);
  }

  /** A name with nothing but underscores, punctuation and whitespace falls back to "course". */
  lemma SanitizeFallback(name: string)
    requires forall i :: 0 <= i < |name| ==> (!IsWordChar(name[i]) || name[i] == '_') && name[i] != '-'
    ensures SanitizeFilename(name) == FallbackName()
  {
    var lowered := Lower(Strip(name));
    StripByChars(name, IsSpace);
    var kept := Filter(lowered, KeptInName);
    assert forall c :: c in kept ==> IsSpace(c) || c == '_' by {
      forall c | c in kept ensures IsSpace(c) || c == '_' {
        var i :| 0 <= i < |lowered| && lowered[i] == c;
        assert Strip(name)[i] in name;
      }
    }
    var snake := SubSpaceRuns(kept, '_');
    SubSpaceRunsChars(kept, '_');
    assert forall i :: 0 <= i < |snake| ==> IsUnderscore(snake[i]) by {
      forall i | 0 <= i < |snake| ensures IsUnderscore(snake[i]) {
        assert snake[i] in snake;
      }
    }
    StripByFacts(snake, IsUnderscore);
    assert StripBy(snake, IsUnderscore) == [];
  }

  // -------------------------------------------------------------- clean_word

  /** What `[^a-z0-9+#\-\.\s]` does not match: the characters a glossary word may keep. */
  predicate KeptInWord(c: char)
  {
    'a' <= c <= 'z' || '0' <= c <= '9' || c == '+' || c == '#' || c == '-' || c == '.' || IsSpace(c)
  }

  /** `re.search(r"[a-z]", w)`. */
  predicate HasLetter(w: string)
  {
    exists i :: 0 <= i < |w| && 'a' <= w[i] <= 'z'
  }

  predicate AnyTokenIn(tokens: seq<string>, words: set<string>)
  {
    exists i :: 0 <= i < |tokens| && tokens[i] in words
  }

  /** The text before the filters: lowered, other characters spaced out, whitespace runs collapsed, stripped. */
  function NormalizeWord(text: string): string
  {
    Strip(SubSpaceRuns(Replace(Lower(Strip(text)), KeptInWord, ' '), ' '))
  }

  /** A normalised word: stripped, single spaces between tokens, and only `[a-z0-9+#.-]` and ' '. */
  predicate IsNormalWord(w: string)
  {
    IsStripped(w) && NoDoubleSpace(w)
    && forall i :: 0 <= i < |w| ==> w[i] == ' ' || (KeptInWord(w[i]) && !IsSpace(w[i]))
  }

  /** The filters `clean_word` applies to the normalised text. */
  predicate PassesFilters(w: string)
  {
    2 <= |w| <= 50
    && |Words(w)| <= 2
    && w !in BadTerms
    && !AnyTokenIn(Words(w), StopWords)
    && !AnyTokenIn(Words(w), JunkWords)
    && HasLetter(w)
  }

  /** `clean_word(text)`: the normalised word, or `None` if the text is empty or a filter rejects it. */
  function CleanWord(text: string): (r: Option<string>)
    ensures r.Some? ==> IsNormalWord(r.value) && PassesFilters(r.value)
    ensures r.Some? ==> r.value == NormalizeWord(text)
    ensures r.None? ==> text == [] || !PassesFilters(NormalizeWord(text))
  {
    if text == [] then None
    else
      var w := NormalizeWord(text);
      NormalizeWordFacts(text);
      if |w| < 2 || |w| > 50 then None
      else
        var tokens := Words(w);
        if |tokens| > 2 then None
        else if w in BadTerms then None
        else if AnyTokenIn(tokens, StopWords) then None
        else if AnyTokenIn(tokens, JunkWords) then None
        else if !HasLetter(w) then None
        else Some(w)
  }

  /** Normalisation always produces a normal word. */
  lemma NormalizeWordFacts(text: string)
    ensures IsNormalWord(NormalizeWord(text))
  {
    var lowered := Lower(Strip(text));
    var spaced := Replace(lowered, KeptInWord, ' ');
    var single := SubSpaceRuns(spaced, ' ');
    var w := Strip(single);
    SubSpaceRunsChars(spaced, ' ');
    SubSpaceRunsSingle(spaced, ' ');
    StripByChars(single, IsSpace);
    StripFacts(single);
    forall i | 0 <= i < |w| ensures w[i] == ' ' || (KeptInWord(w[i]) && !IsSpace(w[i])) {
      assert w[i] in single;
      if w[i] != ' ' {
        assert w[i] in spaced;
      }
    }
  }

  /** A normal word is its own normal form. */
  lemma NormalizeNormalWord(w: string)
    requires IsNormalWord(w)
    ensures NormalizeWord(w) == w
  {
    StripOfStripped(w, IsSpace);
    assert Lower(w) == w;
    assert Replace(w, KeptInWord, ' ') == w;
    SubSpaceRunsOfSingle(w, ' ');
  }

  /** Cleaning a cleaned word gives it back unchanged. */
  lemma CleanWordIdempotent(text: string, w: string)
    requires CleanWord(text) == Some(w)
    ensures CleanWord(w) == Some(w)
  {
    NormalizeNormalWord(w);
  }

  /** Rejections are final: whatever a rejected text normalises to is rejected as well. */
  lemma CleanWordRejectsNormalForm(text: string)
    requires text != [] && CleanWord(text).None?
    ensures NormalizeWord(text) == [] || CleanWord(NormalizeWord(text)).None?
  {
    NormalizeWordFacts(text);
    NormalizeNormalWord(NormalizeWord(text));
  }
}
