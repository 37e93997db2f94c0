/** The handful of Python `str` operations the listing parser and the relevance
    filter use: `strip`, `lower`, `replace`, `split` with a one-character
    separator and the substring test `in`, each over `seq<char>`. */
module Text {

  /** `str.isspace` on one character: exactly the characters CPython's
      argument-less `str.strip()` removes. */
  predicate IsSpace(c: char) {
    || c == ' '
    || ('\t' <= c <= '\r')
    || ('\U{1C}' <= c <= '\U{1F}')
    || c == '\U{85}'
    || c == '\U{A0}'
    || c == '\U{1680}'
    || ('\U{2000}' <= c <= '\U{200A}')
    || c == '\U{2028}'
    || c == '\U{2029}'
    || c == '\U{202F}'
    || c == '\U{205F}'
    || c == '\U{3000}'
  }

  predicate AllSpace(s: string) {
    forall k :: 0 <= k < |s| ==> IsSpace(s[k])
  }

  /** Neither the first nor the last character of `s` is whitespace. */
  predicate IsStripped(s: string) {
    s == [] || (!IsSpace(s[0]) && !IsSpace(s[|s| - 1]))
  }

  /** `s.lstrip()`: drops the leading whitespace. */
  function TrimStart(s: string): (r: string)
    ensures |r| <= |s|
    ensures r == [] || !IsSpace(r[0])
  {
    if s != [] && IsSpace(s[0]) then TrimStart(s[1..]) else s
  }

  /** `s.rstrip()`: drops the trailing whitespace. */
  function TrimEnd(s: string): (r: string)
    ensures |r| <= |s|
    ensures r == [] || !IsSpace(r[|r| - 1])
  {
    if s != [] && IsSpace(s[|s| - 1]) then TrimEnd(s[..|s| - 1]) else s
  }

  /** `lstrip` keeps a suffix that does not start with whitespace and removes
      only whitespace. */
  lemma {:induction false} TrimStartSpec(s: string)
    ensures var r := TrimStart(s);
      && |r| <= |s| && r == s[|s| - |r|..]
      && AllSpace(s[..|s| - |r|])
      && (r == [] || !IsSpace(r[0]))
  {
    if s != [] && IsSpace(s[0]) {
      TrimStartSpec(s[1..]);
      var r := TrimStart(s);
      assert s[..|s| - |r|] == [s[0]] + s[1..][..|s| - 1 - |r|];
    }
  }

  /** `rstrip` keeps a prefix that does not end with whitespace and removes
      only whitespace. */
  lemma {:induction false} TrimEndSpec(s: string)
    ensures var r := TrimEnd(s);
      && |r| <= |s| && r == s[..|r|]
      && AllSpace(s[|r|..])
      && (r == [] || !IsSpace(r[|r| - 1]))
  {
    if s != [] && IsSpace(s[|s| - 1]) {
      TrimEndSpec(s[..|s| - 1]);
      var r := TrimEnd(s);
      assert s[|r|..] == s[..|s| - 1][|r|..] + [s[|s| - 1]];
    }
  }

  /** `s.strip()`: `s` without its leading and its trailing whitespace. */
  function Strip(s: string): (r: string)
    ensures IsStripped(r)
  {
    TrimStartSpec(s);
    TrimEndSpec(TrimStart(s));
    TrimEnd(TrimStart(s))
  }

  /** The stripped text is the slice of the text between a whitespace prefix
      and a whitespace suffix. */
  lemma StripSlice(s: string)
    ensures exists i, j :: 0 <= i <= j <= |s| && Strip(s) == s[i..j] && AllSpace(s[..i]) && AllSpace(s[j..])
  {
    var t := TrimStart(s);
    TrimStartSpec(s);
    TrimEndSpec(t);
    var r := TrimEnd(t);
    var i := |s| - |t|;
    assert r == s[i..i + |r|] && AllSpace(s[i + |r|..]) by {
      assert s[i + |r|..] == t[|r|..];
    }
  }

  /** Stripping an already stripped text changes nothing. */
  lemma StripStripped(s: string)
    requires IsStripped(s)
    ensures Strip(s) == s
  {
  }

  /** `strip` is idempotent. */
  lemma StripIdempotent(s: string)
    ensures Strip(Strip(s)) == Strip(s)
  {
    StripStripped(Strip(s));
  }

  /** Stripping removes only whitespace: a character is in the stripped text
      only if it is in the text, and one that is not whitespace stays. */
  lemma StripKeepsNonSpace(s: string, c: char)
    ensures c in Strip(s) ==> c in s
    ensures !IsSpace(c) && c in s ==> c in Strip(s)
  {
    TrimStartKeepsNonSpace(s, c);
    TrimEndKeepsNonSpace(TrimStart(s), c);
  }

  lemma {:induction false} TrimStartKeepsNonSpace(s: string, c: char)
    ensures c in TrimStart(s) ==> c in s
    ensures !IsSpace(c) && c in s ==> c in TrimStart(s)
  {
    if s != [] && IsSpace(s[0]) {
      TrimStartKeepsNonSpace(s[1..], c);
      assert s == [s[0]] + s[1..];
    }
  }

  lemma {:induction false} TrimEndKeepsNonSpace(s: string, c: char)
    ensures c in TrimEnd(s) ==> c in s
    ensures !IsSpace(c) && c in s ==> c in TrimEnd(s)
  {
    if s != [] && IsSpace(s[|s| - 1]) {
      TrimEndKeepsNonSpace(s[..|s| - 1], c);
      assert s == s[..|s| - 1] + [s[|s| - 1]];
    }
  }

  /** The upper-case letters of ASCII and Latin-1. */
  predicate IsUpper(c: char) {
    'A' <= c <= 'Z' || ('\U{C0}' <= c <= '\U{DE}' && c != '\U{D7}')
  }

  /** Python's `str.lower()` on one character, for ASCII and Latin-1. */
  function LowerChar(c: char): char {
    if IsUpper(c) then
      (c as int + 32) as char
    else
      c
  }

  /** `s.lower()`, character by character: no upper-case letter is left,
      every other character stays where it is, and an upper-case letter
      becomes its lower-case partner 32 code points further on. */
  function Lower(s: string): (r: string)
    ensures |r| == |s|
    ensures forall k :: 0 <= k < |r| ==> !IsUpper(r[k])
    ensures forall k :: 0 <= k < |s| && !IsUpper(s[k]) ==> r[k] == s[k]
    ensures forall k :: 0 <= k < |s| && IsUpper(s[k]) ==> r[k] as int == s[k] as int + 32
  {
    seq(|s|, k requires 0 <= k < |s| => LowerChar(s[k]))
  }

  /** Lower-casing a lower-cased text changes nothing. */
  lemma LowerIdempotent(s: string)
    ensures Lower(Lower(s)) == Lower(s)
  {
    assert forall k :: 0 <= k < |s| ==> LowerChar(LowerChar(s[k])) == LowerChar(s[k]);
  }

  /** `s` starts with `prefix`. */
  predicate IsPrefix(prefix: string, s: string) {
    |prefix| <= |s| && s[..|prefix|] == prefix
  }

  /** Python's `sub in s`: `sub` starts at some position of `s`. Only a
      pattern no longer than the text can be found, and the empty pattern is
      found in every text. */
  function IsSubstring(sub: string, s: string): (found: bool)
    ensures found ==> |sub| <= |s|
    ensures sub == [] ==> found
    decreases |s|
  {
    IsPrefix(sub, s) || (s != [] && IsSubstring(sub, s[1..]))
  }

  /** A text that does not contain the first character of `sub` does not
      contain `sub`. */
  lemma {:induction false} NotSubstringWithoutHead(sub: string, s: string)
    requires sub != [] && sub[0] !in s
    ensures !IsSubstring(sub, s)
    decreases |s|
  {
    if s != [] {
      NotSubstringWithoutHead(sub, s[1..]);
    }
  }

  /** A text contains exactly the slices of itself. */
  lemma {:induction false} SubstringIsSlice(sub: string, s: string)
    ensures IsSubstring(sub, s) <==> exists i :: 0 <= i <= |s| - |sub| && IsPrefix(sub, s[i..])
    decreases |s|
  {
    assert s[0..] == s;
    if s != [] {
      SubstringIsSlice(sub, s[1..]);
      if IsSubstring(sub, s[1..]) {
        var i :| 0 <= i <= |s[1..]| - |sub| && IsPrefix(sub, s[1..][i..]);
        assert s[1..][i..] == s[i + 1..];
      }
      if exists i :: 0 <= i <= |s| - |sub| && IsPrefix(sub, s[i..]) {
        var i :| 0 <= i <= |s| - |sub| && IsPrefix(sub, s[i..]);
        if i > 0 {
          assert s[1..][i - 1..] == s[i..];
        }
      }
    }
  }

  /** Python's `s.replace(pattern, replacement)` for a non-empty pattern:
      occurrences are found from left to right and never overlap. */
  function Replace(s: string, pattern: string, replacement: string): (r: string)
    requires pattern != []
    ensures replacement == [] ==> |r| <= |s|
    ensures |replacement| == |pattern| ==> |r| == |s|
    decreases |s|
  {
    if |s| < |pattern| then s
    else if s[..|pattern|] == pattern then replacement + Replace(s[|pattern|..], pattern, replacement)
    else [s[0]] + Replace(s[1..], pattern, replacement)
  }

  /** Replacing one character by another rewrites each occurrence in place and
      leaves every other character as it was. */
  lemma {:induction false} ReplaceCharPointwise(s: string, c: char, d: char)
    ensures |Replace(s, [c], [d])| == |s|
    ensures forall k :: 0 <= k < |s| ==> Replace(s, [c], [d])[k] == (if s[k] == c then d else s[k])
  {
    if |s| > 0 {
      ReplaceCharPointwise(s[1..], c, d);
      var rest := Replace(s[1..], [c], [d]);
      assert s[..1] == [s[0]];
      assert Replace(s, [c], [d]) == [if s[0] == c then d else s[0]] + rest;
    }
  }

  /** After replacing a character by a different one, the character is gone. */
  lemma ReplaceCharRemoves(s: string, c: char, d: char)
    requires c != d
    ensures c !in Replace(s, [c], [d])
  {
    ReplaceCharPointwise(s, c, d);
  }

  /** A text without the pattern is left unchanged. */
  lemma {:induction false} ReplaceAbsent(s: string, pattern: string, replacement: string)
    requires pattern != [] && !IsSubstring(pattern, s)
    ensures Replace(s, pattern, replacement) == s
    decreases |s|
  {
    if |s| >= |pattern| {
      ReplaceAbsent(s[1..], pattern, replacement);
    }
  }

  /** Deleting a two-character pattern whose characters differ leaves no
      occurrence behind, provided the text never repeats the pattern's first
      character. (With the repetition a new occurrence can form across a
      deleted one: `"xxyy"` with pattern `"xy"` becomes `"xy"`.) */
  lemma {:induction false} DeletePairRemovesAll(s: string, a: char, b: char)
    requires a != b && !IsSubstring([a, a], s)
    ensures !IsSubstring([a, b], Replace(s, [a, b], []))
    decreases |s|
  {
    var r := Replace(s, [a, b], []);
    if |s| >= 2 {
      if s[..2] == [a, b] {
        assert s[2..] == s[1..][1..];
        assert !IsSubstring([a, a], s[1..]);
        DeletePairRemovesAll(s[2..], a, b);
        assert r == Replace(s[2..], [a, b], []);
      } else {
        DeletePairRemovesAll(s[1..], a, b);
        var rt := Replace(s[1..], [a, b], []);
        assert r == [s[0]] + rt && r[1..] == rt;
        if IsPrefix([a, b], r) {
          TailStartsWithoutPair(s[1..], a, b);
        }
      }
    } else {
      assert r == s;
      if s != [] {
        assert !IsPrefix([a, b], s[1..]);
      }
    }
  }

  /** Deleting the pattern from a text that does not start with its first
      character leaves a text that starts with the pattern's second character
      only when the original text did. */
  lemma {:induction false} TailStartsWithoutPair(t: string, a: char, b: char)
    requires a != b && t != [] && t[0] != a
    requires Replace(t, [a, b], []) != [] && Replace(t, [a, b], [])[0] == b
    ensures t[0] == b
  {
    if |t| >= 2 {
      assert Replace(t, [a, b], []) == [t[0]] + Replace(t[1..], [a, b], []);
    }
  }

  /** The number of occurrences of `c` in `s` (Python's `s.count(c)`). */
  function Occurrences(s: string, c: char): nat {
    if s == [] then 0 else (if s[0] == c then 1 else 0) + Occurrences(s[1..], c)
  }

  /** The pieces joined back together with the separator between them. */
  function Join(pieces: seq<string>, sep: char): string
    requires pieces != []
  {
    if |pieces| == 1 then pieces[0] else pieces[0] + [sep] + Join(pieces[1..], sep)
  }

  /** Python's `s.split(sep)` for a one-character separator: the separator
      never occurs inside a piece, there is one piece more than there are
      separators, and joining the pieces gives back the text. */
  function Split(s: string, sep: char): (pieces: seq<string>)
    ensures |pieces| == Occurrences(s, sep) + 1
    ensures forall k :: 0 <= k < |pieces| ==> sep !in pieces[k]
    ensures Join(pieces, sep) == s
  {
    if s == [] then [[]]
    else
      var rest := Split(s[1..], sep);
      if s[0] == sep then
        [[]] + rest
      else
        var pieces := [[s[0]] + rest[0]] + rest[1..];
        assert pieces[1..] == rest[1..];
        assert Join(pieces, sep) == [s[0]] + Join(rest, sep);
        pieces
  }

  /** The characters of `s` before the first occurrence of `c`. */
  function Before(s: string, c: char): (r: string)
    ensures |r| <= |s| && r == s[..|r|] && c !in r
    ensures |r| < |s| ==> s[|r|] == c
  {
    if s == [] || s[0] == c then [] else [s[0]] + Before(s[1..], c)
  }

  /** The characters before the separator, when the separator follows them. */
  lemma {:induction false} BeforeJoin(a: string, c: char, b: string)
    requires c !in a
    ensures Before(a + [c] + b, c) == a
  {
    if a != [] {
      assert (a + [c] + b)[1..] == a[1..] + [c] + b;
      BeforeJoin(a[1..], c, b);
    }
  }

  /** A text contains whatever its tail contains. */
  lemma {:induction false} SubstringOfTrimStart(p: string, s: string)
    ensures IsSubstring(p, TrimStart(s)) ==> IsSubstring(p, s)
  {
    if s != [] && IsSpace(s[0]) {
      SubstringOfTrimStart(p, s[1..]);
    }
  }

  /** A text contains whatever its initial part contains. */
  lemma {:induction false} SubstringOfInit(p: string, s: string, n: nat)
    requires n <= |s|
    ensures IsSubstring(p, s[..n]) ==> IsSubstring(p, s)
    decreases n
  {
    if IsPrefix(p, s[..n]) {
      assert s[..|p|] == s[..n][..|p|];
    } else if n > 0 && IsSubstring(p, s[..n][1..]) {
      assert s[..n][1..] == s[1..][..n - 1];
      SubstringOfInit(p, s[1..], n - 1);
    }
  }

  lemma {:induction false} SubstringOfTrimEnd(p: string, s: string)
    ensures IsSubstring(p, TrimEnd(s)) ==> IsSubstring(p, s)
  {
    if s != [] && IsSpace(s[|s| - 1]) {
      SubstringOfTrimEnd(p, s[..|s| - 1]);
      SubstringOfInit(p, s, |s| - 1);
    }
  }

  /** Splitting two separator-free pieces joined by the separator gives the
      two pieces back. */
  lemma SplitJoin(a: string, b: string, sep: char)
    requires sep !in a && sep !in b
    ensures Split(a + [sep] + b, sep) == [a, b]
  {
    var pieces := Split(a + [sep] + b, sep);
    SplitUnique(a + [sep] + b, sep, [a, b]);
  }

  /** The pieces of a split are determined by the text: separator-free pieces
      that join to it are the split. */
  lemma {:induction false} SplitUnique(s: string, sep: char, ps: seq<string>)
    requires ps != [] && Join(ps, sep) == s
    requires forall k :: 0 <= k < |ps| ==> sep !in ps[k]
    ensures Split(s, sep) == ps
    decreases |s|, |ps|
  {
    if s == [] {
    } else if ps[0] == [] {
      assert s == [sep] + Join(ps[1..], sep);
      assert s[1..] == Join(ps[1..], sep);
      SplitUnique(s[1..], sep, ps[1..]);
    } else {
      var ps' := [ps[0][1..]] + ps[1..];
      assert s[0] == ps[0][0] && s[0] != sep;
      assert ps'[1..] == ps[1..];
      if |ps| == 1 {
        assert s[1..] == Join(ps', sep);
      } else {
        assert s[1..] == ps[0][1..] + [sep] + Join(ps[1..], sep);
        assert s[1..] == Join(ps', sep);
      }
      assert forall k :: 0 <= k < |ps'| ==> sep !in ps'[k] by {
        assert forall c :: c in ps[0][1..] ==> c in ps[0];
      }
      SplitUnique(s[1..], sep, ps');
      assert [ps[0][0]] + ps[0][1..] == ps[0];
    }
  }
}
