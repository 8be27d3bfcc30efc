/**
 * Python `str` behaviour the core depends on: `isspace`, `strip`, `lower`,
 * `join`, `splitlines`, `split()` and the three `re.sub` shapes the crawlers use
 * (delete a character class, replace a character class by a space, collapse
 * whitespace runs). Strings are sequences of
 * Unicode scalar values, as Python's code points are.
 */
module PyText {
  import opened Sequences

  /** `str.isspace()` for one character; `strip()`, `split()` and `re`'s `\s` all use this set. */
  predicate IsSpace(c: char)
  {
    c == ' ' || ('\t' <= c <= '\r') || ('\U{1C}' <= c <= '\U{1F}') || c == '\U{85}' || c == '\U{A0}'
    || c == '\U{1680}' || ('\U{2000}' <= c <= '\U{200A}') || c == '\U{2028}' || c == '\U{2029}'
    || c == '\U{202F}' || c == '\U{205F}' || c == '\U{3000}'
  }

  predicate IsNotSpace(c: char) { !IsSpace(c) }

  /** The line boundaries `str.splitlines()` recognises ("\r\n" counts as one). */
  predicate IsLineBreak(c: char)
  {
    c == '\n' || c == '\r' || c == '\U{B}' || c == '\U{C}' || ('\U{1C}' <= c <= '\U{1E}')
    || c == '\U{85}' || c == '\U{2028}' || c == '\U{2029}'
  }

  predicate HasLineBreak(s: string) { exists i :: 0 <= i < |s| && IsLineBreak(s[i]) }

  /** `s.lstrip(chars)`, where `drop` says which characters are in `chars`. */
  function TrimLeft(s: string, drop: char -> bool): (r: string)
    ensures |r| <= |s|
  {
    if s != [] && drop(s[0]) then TrimLeft(s[1..], drop) else s
  }

  /** `s.rstrip(chars)`. */
  function TrimRight(s: string, drop: char -> bool): (r: string)
    ensures |r| <= |s|
  {
    if s != [] && drop(s[|s| - 1]) then TrimRight(s[..|s| - 1], drop) else s
  }

  /** `lstrip` removes the longest prefix of `drop` characters and nothing else. */
  lemma {:induction false} TrimLeftFacts(s: string, drop: char -> bool)
    ensures var r := TrimLeft(s, drop);
      r == s[|s| - |r|..] && (r == [] || !drop(r[0])) && forall i :: 0 <= i < |s| - |r| ==> drop(s[i])
  {
    if s != [] && drop(s[0]) {
      TrimLeftFacts(s[1..], drop);
    }
  }

  /** `rstrip` removes the longest suffix of `drop` characters and nothing else. */
  lemma {:induction false} TrimRightFacts(s: string, drop: char -> bool)
    ensures var r := TrimRight(s, drop);
      r == s[..|r|] && (r == [] || !drop(r[|r| - 1])) && forall i :: |r| <= i < |s| ==> drop(s[i])
  {
    if s != [] && drop(s[|s| - 1]) {
      TrimRightFacts(s[..|s| - 1], drop);
    }
  }

  /** `s.strip(chars)`, where `drop` says which characters are in `chars`. */
  function StripBy(s: string, drop: char -> bool): string
  {
    TrimRight(TrimLeft(s, drop), drop)
  }

  /** `s.strip()`. */
  function Strip(s: string): string
  {
    StripBy(s, IsSpace)
  }

  predicate IsStripped(s: string)
  {
    s == [] || (!IsSpace(s[0]) && !IsSpace(s[|s| - 1]))
  }

  /** `not s.strip()`: nothing but whitespace. */
  predicate IsBlank(s: string)
  {
    forall i :: 0 <= i < |s| ==> IsSpace(s[i])
  }

  /** Where `StripBy(s, drop)` starts inside `s`. */
  function StripStart(s: string, drop: char -> bool): nat
  {
    |s| - |TrimLeft(s, drop)|
  }

  /** `strip(chars)` removes only boundary characters: it yields a slice of `s` with no `drop` character at either end. */
  lemma StripByFacts(s: string, drop: char -> bool)
    ensures var r, i := StripBy(s, drop), StripStart(s, drop);
      i + |r| <= |s| && r == s[i..i + |r|]
    ensures var r := StripBy(s, drop); r == [] || (!drop(r[0]) && !drop(r[|r| - 1]))
    ensures StripBy(s, drop) == [] <==> forall i :: 0 <= i < |s| ==> drop(s[i])
  {
    var t := TrimLeft(s, drop);
    var r := TrimRight(t, drop);
    TrimLeftFacts(s, drop);
    TrimRightFacts(t, drop);
    if r == [] {
      assert t == [];
    }
  }

  lemma StripFacts(s: string)
    ensures IsStripped(Strip(s))
    ensures Strip(s) == [] <==> IsBlank(s)
  {
    StripByFacts(s, IsSpace);
  }

  /** Stripping only removes characters, and cannot create two whitespace characters in a row. */
  lemma StripByChars(s: string, drop: char -> bool)
    ensures forall c :: c in StripBy(s, drop) ==> c in s
    ensures NoDoubleSpace(s) ==> NoDoubleSpace(StripBy(s, drop))
  {
    StripByFacts(s, drop);
    var r, i := StripBy(s, drop), StripStart(s, drop);
    forall c | c in r ensures c in s {
      var j :| 0 <= j < |r| && r[j] == c;
      assert s[i + j] == c;
    }
    if NoDoubleSpace(s) {
      forall j | 0 <= j < |r| - 1 ensures !(IsSpace(r[j]) && IsSpace(r[j + 1])) {
        assert r[j] == s[i + j] && r[j + 1] == s[i + j + 1];
      }
    }
  }

  lemma StripOfStripped(s: string, drop: char -> bool)
    requires s == [] || (!drop(s[0]) && !drop(s[|s| - 1]))
    ensures StripBy(s, drop) == s
  {
  }

  function LowerChar(c: char): char
  {
    if 'A' <= c <= 'Z' then (c as int + 32) as char else c
  }

  /** `s.lower()` on ASCII letters; every other character is left as it is. */
  function Lower(s: string): (r: string)
    ensures |r| == |s| && forall i :: 0 <= i < |s| ==> r[i] == LowerChar(s[i])
  {
    seq(|s|, i requires 0 <= i < |s| => LowerChar(s[i]))
  }

  predicate StartsWith(s: string, prefix: string)
  {
    |prefix| <= |s| && s[..|prefix|] == prefix
  }

  /** `re.sub("[^...]", "", s)`: keeps the characters `keep` accepts, in order. */
  function Filter(s: string, keep: char -> bool): (r: string)
    ensures forall c :: c in r ==> c in s && keep(c)
  {
    if s == [] then [] else (if keep(s[0]) then [s[0]] else []) + Filter(s[1..], keep)
  }

  /** Filtering out nothing leaves the string as it is. */
  lemma {:induction false} FilterKeepsAll(s: string, keep: char -> bool)
    requires forall i :: 0 <= i < |s| ==> keep(s[i])
    ensures Filter(s, keep) == s
  {
    if s != [] {
      FilterKeepsAll(s[1..], keep);
    }
  }

  /** `re.sub("[^...]", " ", s)`: replaces every character `keep` rejects by `rep`. */
  function Replace(s: string, keep: char -> bool, rep: char): (r: string)
    ensures |r| == |s| && forall i :: 0 <= i < |s| ==> r[i] == if keep(s[i]) then s[i] else rep
  {
    seq(|s|, i requires 0 <= i < |s| => if keep(s[i]) then s[i] else rep)
  }

  /** `re.sub(r"\s+", rep, s)`: every maximal run of whitespace becomes one `rep`. */
  function SubSpaceRuns(s: string, rep: char): string
    decreases |s|
  {
    if s == [] then []
    else if IsSpace(s[0]) then [rep] + SubSpaceRuns(TrimLeft(s, IsSpace), rep)
    else [s[0]] + SubSpaceRuns(s[1..], rep)
  }

  lemma {:induction false} SubSpaceRunsChars(s: string, rep: char)
    ensures forall c :: c in SubSpaceRuns(s, rep) ==> c == rep || (c in s && !IsSpace(c))
    decreases |s|
  {
    if s == [] {
    } else if IsSpace(s[0]) {
      var t := TrimLeft(s, IsSpace);
      TrimLeftFacts(s, IsSpace);
      SubSpaceRunsChars(t, rep);
      forall c | c in t ensures c in s {
        var j :| 0 <= j < |t| && t[j] == c;
        assert s[|s| - |t| + j] == c;
      }
    } else {
      SubSpaceRunsChars(s[1..], rep);
      assert forall c :: c in s[1..] ==> c in s;
    }
  }

  /** No two whitespace characters in a row. */
  predicate NoDoubleSpace(s: string)
  {
    forall i :: 0 <= i < |s| - 1 ==> !(IsSpace(s[i]) && IsSpace(s[i + 1]))
  }

  /** When `rep` is itself whitespace, the result never has two whitespace characters in a row. */
  lemma {:induction false} SubSpaceRunsSingle(s: string, rep: char)
    requires IsSpace(rep)
    ensures NoDoubleSpace(SubSpaceRuns(s, rep))
    decreases |s|
  {
    if s == [] {
    } else if IsSpace(s[0]) {
      var t := TrimLeft(s, IsSpace);
      TrimLeftFacts(s, IsSpace);
      SubSpaceRunsSingle(t, rep);
      var tail := SubSpaceRuns(t, rep);
      var r := SubSpaceRuns(s, rep);
      assert r == [rep] + tail;
      assert t != [] ==> tail[0] == t[0];
      forall i | 0 <= i < |r| - 1 ensures !(IsSpace(r[i]) && IsSpace(r[i + 1])) {
        if i > 0 {
          assert r[i] == tail[i - 1] && r[i + 1] == tail[i];
        }
      }
    } else {
      SubSpaceRunsSingle(s[1..], rep);
      var tail := SubSpaceRuns(s[1..], rep);
      var r := SubSpaceRuns(s, rep);
      assert r == [s[0]] + tail;
      forall i | 0 <= i < |r| - 1 ensures !(IsSpace(r[i]) && IsSpace(r[i + 1])) {
        if i > 0 {
          assert r[i] == tail[i - 1] && r[i + 1] == tail[i];
        }
      }
    }
  }

  /** A string whose whitespace is single `rep` characters is left alone by `re.sub(r"\s+", rep, ...)`. */
  lemma {:induction false} SubSpaceRunsOfSingle(s: string, rep: char)
    requires forall i :: 0 <= i < |s| && IsSpace(s[i]) ==> s[i] == rep
    requires NoDoubleSpace(s)
    ensures SubSpaceRuns(s, rep) == s
    decreases |s|
  {
    if s != [] {
      var t := s[1..];
      assert (forall i :: 0 <= i < |t| && IsSpace(t[i]) ==> t[i] == rep) && NoDoubleSpace(t) by {
        assert forall i :: 0 <= i < |t| ==> t[i] == s[i + 1];
        forall i | 0 <= i < |t| - 1 ensures !(IsSpace(t[i]) && IsSpace(t[i + 1])) {
          assert t[i] == s[i + 1] && t[i + 1] == s[i + 2];
        }
      }
      SubSpaceRunsOfSingle(t, rep);
      if IsSpace(s[0]) {
        assert TrimLeft(s, IsSpace) == t by {
          if t != [] {
            assert !(IsSpace(s[0]) && IsSpace(s[1]));
            assert !IsSpace(t[0]);
          }
        }
        assert SubSpaceRuns(s, rep) == [rep] + SubSpaceRuns(t, rep);
      } else {
        assert SubSpaceRuns(s, rep) == [s[0]] + SubSpaceRuns(t, rep);
      }
      assert s == [s[0]] + t;
    }
  }

  /** `sep.join(parts)`. */
  function Join(parts: seq<string>, sep: string): string
  {
    if parts == [] then []
    else if |parts| == 1 then parts[0]
    else parts[0] + sep + Join(parts[1..], sep)
  }

  lemma {:induction false} JoinAppend(parts: seq<string>, t: string, sep: string)
    ensures Join(parts + [t], sep) == if parts == [] then t else Join(parts, sep) + sep + t
  {
    if |parts| > 1 {
      assert (parts + [t])[1..] == parts[1..] + [t];
      JoinAppend(parts[1..], t, sep);
    }
  }

  /** Joining a prefix of the parts gives a prefix of the joined text. */
  lemma {:induction false} JoinPrefix(parts: seq<string>, sep: string, m: nat)
    requires m <= |parts|
    ensures Join(parts[..m], sep) <= Join(parts, sep)
    decreases |parts|
  {
    if m < |parts| {
      var init := parts[..|parts| - 1];
      assert parts == init + [parts[|parts| - 1]];
      assert parts[..m] == init[..m];
      JoinPrefix(init, sep, m);
      JoinAppend(init, parts[|parts| - 1], sep);
    } else {
      assert parts[..m] == parts;
    }
  }

  /** `[t.strip() for t in texts if t.strip()]`. */
  function StrippedNonBlank(texts: seq<string>): seq<string>
  {
    if texts == [] then []
    else
      var t := Strip(texts[|texts| - 1]);
      StrippedNonBlank(texts[..|texts| - 1]) + (if t == [] then [] else [t])
  }

  lemma {:induction false} StrippedNonBlankFacts(texts: seq<string>)
    ensures forall t :: t in StrippedNonBlank(texts) ==> t != [] && IsStripped(t)
    ensures |StrippedNonBlank(texts)| <= |texts|
  {
    if texts != [] {
      StrippedNonBlankFacts(texts[..|texts| - 1]);
      StripFacts(texts[|texts| - 1]);
    }
  }

  lemma {:induction false} StrippedNonBlankConcat(a: seq<string>, b: seq<string>)
    ensures StrippedNonBlank(a + b) == StrippedNonBlank(a) + StrippedNonBlank(b)
    decreases |b|
  {
    if b == [] {
      assert a + b == a;
    } else {
      var b0 := b[..|b| - 1];
      assert (a + b)[..|a + b| - 1] == a + b0;
      StrippedNonBlankConcat(a, b0);
    }
  }

  /** Strings that are already stripped and non-blank pass through unchanged. */
  lemma {:induction false} StrippedNonBlankOfClean(texts: seq<string>)
    requires forall t :: t in texts ==> t != [] && IsStripped(t)
    ensures StrippedNonBlank(texts) == texts
  {
    if texts != [] {
      var init, t := texts[..|texts| - 1], texts[|texts| - 1];
      assert StrippedNonBlank(init) == init by {
        assert forall u :: u in init ==> u in texts;
        StrippedNonBlankOfClean(init);
      }
      assert Strip(t) == t && t != [] by {
        assert t in texts;
        StripOfStripped(t, IsSpace);
      }
      assert StrippedNonBlank(texts) == init + [t];
      assert init + [t] == texts;
    }
  }

  /** Length of the first line: the index of the first line boundary, or `|s|`. */
  function LineEnd(s: string): (i: nat)
    ensures i <= |s|
    ensures forall j :: 0 <= j < i ==> !IsLineBreak(s[j])
    ensures i < |s| ==> IsLineBreak(s[i])
  {
    if s == [] || IsLineBreak(s[0]) then 0 else 1 + LineEnd(s[1..])
  }

  /** `s.splitlines()`: no piece for the text after a final boundary, and "\r\n" is one boundary. */
  function SplitLines(s: string): seq<string>
    decreases |s|
  {
    if s == [] then []
    else
      var i := LineEnd(s);
      if i == |s| then [s]
      else
        var next := if s[i] == '\r' && i + 1 < |s| && s[i + 1] == '\n' then i + 2 else i + 1;
        [s[..i]] + SplitLines(s[next..])
  }

  /** Splitting a newline-join of non-empty single-line strings gives them back. */
  lemma {:induction false} SplitLinesOfJoin(lines: seq<string>)
    requires forall l :: l in lines ==> l != [] && !HasLineBreak(l)
    ensures SplitLines(Join(lines, "\n")) == lines
  {
    if lines != [] {
      var l := lines[0];
      assert l in lines;
      if |lines| == 1 {
        assert LineEnd(l) == |l|;
      } else {
        var rest := Join(lines[1..], "\n");
        var s := l + "\n" + rest;
        assert s[..|l|] == l;
        assert LineEnd(s) == |l| by { LineEndAt(s, |l|); }
        assert s[|l| + 1..] == rest;
        assert forall m :: m in lines[1..] ==> m in lines;
        SplitLinesOfJoin(lines[1..]);
      }
    }
  }

  lemma {:induction false} LineEndAt(s: string, i: nat)
    requires i <= |s|
    requires forall j :: 0 <= j < i ==> !IsLineBreak(s[j])
    requires i < |s| ==> IsLineBreak(s[i])
    ensures LineEnd(s) == i
  {
    if s != [] && i > 0 {
      LineEndAt(s[1..], i - 1);
    }
  }

  /** `s.split()`: the maximal runs of non-whitespace characters. */
  function Words(s: string): seq<string>
    decreases |s|
  {
    var t := TrimLeft(s, IsSpace);
    if t == [] then []
    else
      var rest := TrimLeft(t, IsNotSpace);
      assert rest != t by {
        TrimLeftFacts(s, IsSpace);
        assert IsNotSpace(t[0]);
      }
      [t[..|t| - |rest|]] + Words(rest)
  }

  /** Python's `a < b` on strings: lexicographic by code point, a proper prefix first. */
  predicate StrLess(a: string, b: string)
  {
    if b == [] then false
    else if a == [] then true
    else if a[0] != b[0] then a[0] < b[0]
    else StrLess(a[1..], b[1..])
  }

  lemma {:induction false} StrLessIrreflexive(a: string)
    ensures !StrLess(a, a)
  {
    if a != [] {
      StrLessIrreflexive(a[1..]);
    }
  }

  lemma {:induction false} StrLessTransitive(a: string, b: string, c: string)
    requires StrLess(a, b) && StrLess(b, c)
    ensures StrLess(a, c)
    decreases |a|
  {
    if a != [] && a[0] == b[0] && b[0] == c[0] {
      StrLessTransitive(a[1..], b[1..], c[1..]);
    }
  }

  lemma {:induction false} StrLessTotal(a: string, b: string)
    requires a != b
    ensures StrLess(a, b) || StrLess(b, a)
    decreases |a|
  {
    if a != [] && b != [] && a[0] == b[0] {
      assert a == [a[0]] + a[1..] && b == [b[0]] + b[1..];
      StrLessTotal(a[1..], b[1..]);
    }
  }
}
