/** The part of Python's `str` that the bot relies on: whitespace as
    `str.isspace` sees it, `strip`, `split` on one character, `join`, `replace`
    of a character by a string, substring containment (`in`), removal of every
    occurrence of a pattern (`replace(p, '')`), the token count of `split()`
    with no argument, and `str` of an integer. */
module Strings {

  /** The characters for which Python's `str.isspace()` is true. */
  predicate IsSpace(c: char) {
    c == ' ' || ('\t' <= c <= '\r') || ('\U{1C}' <= c <= '\U{1F}')
    || c == '\U{85}' || c == '\U{A0}' || c == '\U{1680}'
    || ('\U{2000}' <= c <= '\U{200A}') || c == '\U{2028}' || c == '\U{2029}'
    || c == '\U{202F}' || c == '\U{205F}' || c == '\U{3000}'
  }

  predicate AllSpace(s: string) {
    forall i :: 0 <= i < |s| ==> IsSpace(s[i])
  }

  // ---------------------------------------------------------------- strip

  /** `s.lstrip()`. */
  function LStrip(s: string): string
  {
    if |s| > 0 && IsSpace(s[0]) then LStrip(s[1..]) else s
  }

  /** `lstrip` drops the leading whitespace and nothing else. */
  lemma {:induction false} LStripShape(s: string)
    ensures |LStrip(s)| <= |s| && LStrip(s) == s[|s| - |LStrip(s)|..]
    ensures AllSpace(s[..|s| - |LStrip(s)|])
    ensures LStrip(s) != [] ==> !IsSpace(LStrip(s)[0])
  {
    if |s| > 0 && IsSpace(s[0]) {
      LStripShape(s[1..]);
      var k := |s| - |LStrip(s)|;
      assert s[..k] == [s[0]] + s[1..][..k - 1];
    }
  }

  /** `s.rstrip()`. */
  function RStrip(s: string): string
  {
    if |s| > 0 && IsSpace(s[|s| - 1]) then RStrip(s[..|s| - 1]) else s
  }

  /** `rstrip` drops the trailing whitespace and nothing else. */
  lemma {:induction false} RStripShape(s: string)
    ensures |RStrip(s)| <= |s| && RStrip(s) == s[..|RStrip(s)|]
    ensures AllSpace(s[|RStrip(s)|..])
    ensures RStrip(s) != [] ==> !IsSpace(RStrip(s)[|RStrip(s)| - 1])
  {
    if |s| > 0 && IsSpace(s[|s| - 1]) {
      RStripShape(s[..|s| - 1]);
      var k := |RStrip(s)|;
      assert s[k..] == s[..|s| - 1][k..] + [s[|s| - 1]];
    }
  }

  /** `s.strip()`: both ends trimmed. */
  function Strip(s: string): (r: string)
    ensures r != [] ==> !IsSpace(r[0]) && !IsSpace(r[|r| - 1])
  {
    LStripShape(s);
    RStripShape(LStrip(s));
    RStrip(LStrip(s))
  }

  /** A line is blank for Python (`not line.strip()`) exactly when it holds whitespace only. */
  lemma StripEmptyIffBlank(s: string)
    ensures Strip(s) == [] <==> AllSpace(s)
  {
    var l := LStrip(s);
    var k := |s| - |l|;
    var r := RStrip(l);
    LStripShape(s);
    RStripShape(l);
    if r == [] {
      assert l == [];
      forall i | 0 <= i < |s| ensures IsSpace(s[i]) {
        assert s[i] == s[..k][i];
      }
    } else {
      assert r[0] == l[0] == s[k];
    }
  }

  /** A text that neither starts nor ends with whitespace is left alone by `strip`. */
  lemma StripTrimmed(s: string)
    requires s != [] ==> !IsSpace(s[0]) && !IsSpace(s[|s| - 1])
    ensures Strip(s) == s
  {
  }

  // ---------------------------------------------------------------- split and join

  /** `s.split(sep)` for a one-character separator: every piece, empty ones included. */
  function Split(s: string, sep: char): (parts: seq<string>)
    ensures |parts| >= 1
    ensures forall i :: 0 <= i < |parts| ==> sep !in parts[i]
  {
    if s == [] then [[]]
    else
      var rest := Split(s[1..], sep);
      if s[0] == sep then [[]] + rest
      else [[s[0]] + rest[0]] + rest[1..]
  }

  /** `sep.join(parts)`. */
  function Join(parts: seq<string>, sep: string): string
  {
    if |parts| == 0 then []
    else if |parts| == 1 then parts[0]
    else parts[0] + sep + Join(parts[1..], sep)
  }

  lemma {:induction false} JoinCons(c: char, parts: seq<string>, sep: string)
    requires |parts| >= 1
    ensures Join([[c] + parts[0]] + parts[1..], sep) == [c] + Join(parts, sep)
  {
    var ps := [[c] + parts[0]] + parts[1..];
    if |parts| > 1 {
      assert ps[1..] == parts[1..];
    }
  }

  /** Joining the pieces of a split with the same separator gives the text back. */
  lemma {:induction false} JoinSplit(s: string, sep: char)
    ensures Join(Split(s, sep), [sep]) == s
  {
    if s != [] {
      var rest := Split(s[1..], sep);
      JoinSplit(s[1..], sep);
      if s[0] == sep {
        assert ([[]] + rest)[1..] == rest;
      } else {
        JoinCons(s[0], rest, [sep]);
      }
    }
  }

  lemma {:induction false} SplitNoSeparator(s: string, sep: char)
    requires sep !in s
    ensures Split(s, sep) == [s]
  {
    if s != [] {
      SplitNoSeparator(s[1..], sep);
      assert [s[0]] + s[1..] == s;
    }
  }

  /** Splitting distributes over a separator placed between two texts. */
  lemma {:induction false} SplitAround(a: string, b: string, sep: char)
    ensures Split(a + [sep] + b, sep) == Split(a, sep) + Split(b, sep)
  {
    var s := a + [sep] + b;
    if a == [] {
      assert s[1..] == b;
    } else {
      assert s[1..] == a[1..] + [sep] + b;
      SplitAround(a[1..], b, sep);
    }
  }

  /** Splitting a join of separator-free pieces gives the pieces back. */
  lemma {:induction false} SplitJoin(parts: seq<string>, sep: char)
    requires |parts| >= 1
    requires forall i :: 0 <= i < |parts| ==> sep !in parts[i]
    ensures Split(Join(parts, [sep]), sep) == parts
  {
    SplitNoSeparator(parts[0], sep);
    if |parts| > 1 {
      SplitJoin(parts[1..], sep);
      SplitAround(parts[0], Join(parts[1..], [sep]), sep);
      assert parts[0] + [sep] + Join(parts[1..], [sep]) == Join(parts, [sep]);
    }
  }

  // ---------------------------------------------------------------- replace of one character

  /** `s.replace(c, rep)` for a one-character `c`. */
  function ReplaceChar(s: string, c: char, rep: string): string
  {
    if s == [] then []
    else (if s[0] == c then rep else [s[0]]) + ReplaceChar(s[1..], c, rep)
  }

  /** Replacing a character is the same as splitting on it and joining with the replacement. */
  lemma {:induction false} ReplaceCharIsJoinSplit(s: string, c: char, rep: string)
    ensures ReplaceChar(s, c, rep) == Join(Split(s, c), rep)
  {
    if s != [] {
      var rest := Split(s[1..], c);
      ReplaceCharIsJoinSplit(s[1..], c, rep);
      if s[0] == c {
        assert ([[]] + rest)[1..] == rest;
      } else {
        JoinCons(s[0], rest, rep);
      }
    }
  }

  // ---------------------------------------------------------------- substrings

  predicate StartsWith(s: string, p: string) {
    |p| <= |s| && s[..|p|] == p
  }

  /** Python's `p in s`. */
  predicate Contains(s: string, p: string)
    decreases |s|
  {
    StartsWith(s, p) || (|s| > 0 && Contains(s[1..], p))
  }

  /** An occurrence of `p` brings `p`'s first character with it. */
  lemma {:induction false} ContainsFirstChar(s: string, p: string)
    requires |p| > 0 && Contains(s, p)
    ensures p[0] in s
    decreases |s|
  {
    if !StartsWith(s, p) {
      ContainsFirstChar(s[1..], p);
    } else {
      assert s[0] == s[..|p|][0];
    }
  }

  /** A text that holds `p + q` holds `p`. */
  lemma {:induction false} ContainsPrefixOf(s: string, p: string, q: string)
    requires Contains(s, p + q)
    ensures Contains(s, p)
    decreases |s|
  {
    if StartsWith(s, p + q) {
      assert s[..|p|] == (p + q)[..|p|];
    } else {
      ContainsPrefixOf(s[1..], p, q);
    }
  }

  /** `s.replace(p, '')`: every occurrence of `p`, scanned left to right without overlap, is removed. */
  function RemoveAll(s: string, p: string): string
    requires |p| > 0
    decreases |s|
  {
    if s == [] then []
    else if StartsWith(s, p) then RemoveAll(s[|p|..], p)
    else [s[0]] + RemoveAll(s[1..], p)
  }

  /** Removing a pattern that does not occur leaves the text unchanged. */
  lemma {:induction false} RemoveAllAbsent(s: string, p: string)
    requires |p| > 0 && !Contains(s, p)
    ensures RemoveAll(s, p) == s
    decreases |s|
  {
    if s != [] {
      RemoveAllAbsent(s[1..], p);
    }
  }

  /** A text shorter than `p` does not hold it. */
  lemma {:induction false} ShorterNotContained(s: string, p: string)
    requires |s| < |p|
    ensures !Contains(s, p)
    decreases |s|
  {
    if s != [] {
      ShorterNotContained(s[1..], p);
    }
  }

  /** A leading piece without `p`'s first character passes through the removal untouched. */
  lemma {:induction false} RemoveAllKeepsPrefix(u: string, w: string, p: string)
    requires |p| > 0 && p[0] !in u
    ensures RemoveAll(u + w, p) == u + RemoveAll(w, p)
    decreases |u|
  {
    if u != [] {
      assert (u + w)[0] == u[0] && (u + w)[1..] == u[1..] + w;
      assert u[0] != p[0];
      RemoveAllKeepsPrefix(u[1..], w, p);
    } else {
      assert u + w == w;
    }
  }

  const Fence := "```"

  lemma {:induction false} RemoveFenceKeepsHead(u: string)
    requires u != [] && u[0] != '`'
    ensures RemoveAll(u, Fence) != [] && RemoveAll(u, Fence)[0] == u[0]
  {
  }

  /** A text that does not start with two backticks keeps that property once fences are removed. */
  lemma {:induction false} RemoveFenceNoDoubleStart(t: string)
    requires !StartsWith(t, "``")
    ensures !StartsWith(RemoveAll(t, Fence), "``")
  {
    if t != [] {
      assert !StartsWith(t, Fence);
      var tail := t[1..];
      if t[0] == '`' && tail != [] {
        assert tail[0] != '`';
        RemoveFenceKeepsHead(tail);
      }
    }
  }

  /** Removing every ``` leaves no ``` behind, even where removals bring backticks together. */
  lemma {:induction false} RemoveFenceLeavesNone(s: string)
    ensures !Contains(RemoveAll(s, Fence), Fence)
    decreases |s|
  {
    if s != [] {
      if StartsWith(s, Fence) {
        RemoveFenceLeavesNone(s[3..]);
      } else {
        RemoveFenceLeavesNone(s[1..]);
        var r := RemoveAll(s[1..], Fence);
        assert RemoveAll(s, Fence) == [s[0]] + r;
        if s[0] == '`' {
          assert !StartsWith(s[1..], "``");
          RemoveFenceNoDoubleStart(s[1..]);
        }
        assert ([s[0]] + r)[1..] == r;
        assert !StartsWith([s[0]] + r, Fence);
      }
    }
  }

  // ---------------------------------------------------------------- word count

  /** The number of words that start in `s`, when a word boundary lies just before `s` exactly when `boundary`. */
  function WordsFrom(s: string, boundary: bool): nat
  {
    if s == [] then 0
    else if IsSpace(s[0]) then WordsFrom(s[1..], true)
    else (if boundary then 1 else 0) + WordsFrom(s[1..], false)
  }

  /** `len(s.split())`: the number of maximal runs of non-whitespace characters. */
  function WordCount(s: string): nat
  {
    WordsFrom(s, true)
  }

  /** Every word takes at least one character. */
  lemma {:induction false} WordsAtMostLength(s: string, boundary: bool)
    ensures WordsFrom(s, boundary) <= |s|
  {
    if s != [] {
      WordsAtMostLength(s[1..], true);
      WordsAtMostLength(s[1..], false);
    }
  }

  function BoundaryAfter(a: string, boundary: bool): bool
  {
    if a == [] then boundary else IsSpace(a[|a| - 1])
  }

  lemma {:induction false} WordsFromAppend(a: string, b: string, boundary: bool)
    ensures WordsFrom(a + b, boundary) == WordsFrom(a, boundary) + WordsFrom(b, BoundaryAfter(a, boundary))
  {
    if a != [] {
      var next := IsSpace(a[0]);
      assert (a + b)[0] == a[0];
      assert (a + b)[1..] == a[1..] + b;
      WordsFromAppend(a[1..], b, next);
      assert BoundaryAfter(a[1..], next) == BoundaryAfter(a, boundary) by {
        if |a| > 1 { assert a[1..][|a| - 2] == a[|a| - 1]; }
      }
      if IsSpace(a[0]) {
        assert WordsFrom(a + b, boundary) == WordsFrom(a[1..] + b, true);
      } else {
        assert WordsFrom(a + b, boundary) == (if boundary then 1 else 0) + WordsFrom(a[1..] + b, false);
      }
    } else {
      assert a + b == b;
    }
  }

  lemma {:induction false} WordsFromSpace(s: string, boundary: bool)
    requires AllSpace(s)
    ensures WordsFrom(s, boundary) == 0
  {
    if s != [] {
      WordsFromSpace(s[1..], true);
    }
  }

  /** Stripping never changes the number of words. */
  lemma StripKeepsWords(s: string)
    ensures WordCount(Strip(s)) == WordCount(s)
  {
    var l := LStrip(s);
    LStripShape(s);
    RStripShape(l);
    var lead := s[..|s| - |l|];
    assert s == lead + l;
    WordsFromAppend(lead, l, true);
    WordsFromSpace(lead, true);
    var r := RStrip(l);
    var trail := l[|r|..];
    assert l == r + trail;
    WordsFromAppend(r, trail, true);
    WordsFromSpace(trail, BoundaryAfter(r, true));
  }

  function SumWords(lines: seq<string>): nat
  {
    if lines == [] then 0 else WordCount(lines[0]) + SumWords(lines[1..])
  }

  /** Joining lines with a newline neither merges nor splits words. */
  lemma {:induction false} WordCountJoin(lines: seq<string>)
    ensures WordCount(Join(lines, "\n")) == SumWords(lines)
  {
    if |lines| == 1 {
      assert lines[1..] == [];
    } else if |lines| > 1 {
      var rest := Join(lines[1..], "\n");
      WordCountJoin(lines[1..]);
      WordsFromAppend(lines[0], "\n" + rest, true);
      assert ("\n" + rest)[1..] == rest;
      assert lines[0] + "\n" + rest == lines[0] + ("\n" + rest);
    }
  }

  // ---------------------------------------------------------------- str() of an integer

  function DigitChar(d: nat): char
    requires d < 10
  {
    "0123456789"[d]
  }

  function DigitValue(c: char): nat
  {
    if '0' <= c <= '9' then (c as int - '0' as int) as nat else 0
  }

  /** The decimal digits of `n`, with no leading zero. */
  function NatToString(n: nat): (s: string)
    ensures |s| >= 1
    ensures forall i :: 0 <= i < |s| ==> '0' <= s[i] <= '9'
    ensures |s| > 1 ==> s[0] != '0'
  {
    if n < 10 then [DigitChar(n)] else NatToString(n / 10) + [DigitChar(n % 10)]
  }

  /** The value a string of decimal digits denotes. */
  function DecimalValue(s: string): nat
  {
    if s == [] then 0 else 10 * DecimalValue(s[..|s| - 1]) + DigitValue(s[|s| - 1])
  }

  /** `int(str(n)) == n` for a natural number. */
  lemma {:induction false} NatToStringRoundTrip(n: nat)
    ensures DecimalValue(NatToString(n)) == n
  {
    var s := NatToString(n);
    if n < 10 {
      DigitRoundTrip(n);
      assert s[..0] == [];
    } else {
      NatToStringRoundTrip(n / 10);
      DigitRoundTrip(n % 10);
      assert s[..|s| - 1] == NatToString(n / 10);
      assert s[|s| - 1] == DigitChar(n % 10);
    }
  }

  lemma DigitRoundTrip(d: nat)
    requires d < 10
    ensures DigitValue(DigitChar(d)) == d
  {
  }

  /** Python's `str(n)`: the decimal digits, after a minus sign when `n` is negative. */
  function IntToString(n: int): (s: string)
    ensures |s| >= 1
    ensures n < 0 <==> s[0] == '-'
    ensures n >= 0 ==> DecimalValue(s) == n
    ensures n < 0 ==> DecimalValue(s[1..]) == -n
    ensures var k := if n < 0 then 1 else 0;
      |s| > k && (forall i :: k <= i < |s| ==> '0' <= s[i] <= '9') && (|s| > k + 1 ==> s[k] != '0')
  {
    if n < 0 then
      NatToStringRoundTrip(-n);
      var digits := NatToString(-n);
      assert ("-" + digits)[1..] == digits;
      assert forall i :: 1 <= i < |"-" + digits| ==> ("-" + digits)[i] == digits[i - 1];
      "-" + digits
    else
      NatToStringRoundTrip(n);
      NatToString(n)
  }
}
