/** The few Python string and path operations the pipeline relies on, written
    out so that their edge cases are part of the model: `str.split()` and
    `str.strip()` with no argument, `str.replace`, `str.startswith`,
    `str.endswith`, `str.lower()` on ASCII letters, `str(n)` for a natural
    number and `os.path.join` of two components. */
module Strings {

  /** The characters Python's argument-less `split()` and `strip()` treat as
      whitespace. */
  predicate IsSpace(c: char) {
    c == ' ' || c == '\t' || c == '\n' || c == '\r' || c == '\U{B}' || c == '\U{C}' ||
    ('\U{1C}' <= c <= '\U{1F}') || c == '\U{85}' || c == '\U{A0}' || c == '\U{1680}' ||
    ('\U{2000}' <= c <= '\U{200A}') || c == '\U{2028}' || c == '\U{2029}' || c == '\U{202F}' ||
    c == '\U{205F}' || c == '\U{3000}'
  }

  /** A word as `split()` produces it: non-empty and free of whitespace. */
  predicate IsWord(w: string) {
    w != [] && forall i :: 0 <= i < |w| ==> !IsSpace(w[i])
  }

  predicate AllWords(ws: seq<string>) {
    forall i :: 0 <= i < |ws| ==> IsWord(ws[i])
  }

  /** `s.split()`, scanning left to right with the word read so far in `cur`. */
  function SplitFrom(s: string, cur: string): seq<string>
    decreases |s|
  {
    if s == [] then (if cur == [] then [] else [cur])
    else if IsSpace(s[0]) then (if cur == [] then [] else [cur]) + SplitFrom(s[1..], [])
    else SplitFrom(s[1..], cur + [s[0]])
  }

  function Split(s: string): seq<string> {
    SplitFrom(s, [])
  }

  /** `" ".join(ws)`. */
  function JoinWords(ws: seq<string>): string
    decreases |ws|
  {
    if ws == [] then []
    else if |ws| == 1 then ws[0]
    else ws[0] + " " + JoinWords(ws[1..])
  }

  /** `s.strip()`. */
  function StripLeft(s: string): string
    decreases |s|
  {
    if s != [] && IsSpace(s[0]) then StripLeft(s[1..]) else s
  }

  function StripRight(s: string): string
    decreases |s|
  {
    if s != [] && IsSpace(s[|s| - 1]) then StripRight(s[..|s| - 1]) else s
  }

  function Strip(s: string): string {
    StripRight(StripLeft(s))
  }

  predicate StartsWith(s: string, prefix: string) {
    |prefix| <= |s| && s[..|prefix|] == prefix
  }

  predicate EndsWith(s: string, suffix: string) {
    |suffix| <= |s| && s[|s| - |suffix|..] == suffix
  }

  /** `str.lower()` restricted to ASCII letters. */
  function LowerChar(c: char): char {
    if 'A' <= c <= 'Z' then (c as int - 'A' as int + 'a' as int) as char else c
  }

  function Lower(s: string): (r: string)
    ensures |r| == |s|
    ensures forall i :: 0 <= i < |s| ==> r[i] == LowerChar(s[i])
  {
    seq(|s|, i requires 0 <= i < |s| => LowerChar(s[i]))
  }

  /** `pat` starts at index `i` of `s`. */
  predicate OccursAt(s: string, pat: string, i: int) {
    0 <= i && i + |pat| <= |s| && s[i..i + |pat|] == pat
  }

  /** `s.replace(pat, rep)`: every non-overlapping occurrence, left to right. */
  function Replace(s: string, pat: string, rep: string): string
    requires pat != []
    decreases |s|
  {
    if |s| < |pat| then s
    else if s[..|pat|] == pat then rep + Replace(s[|pat|..], pat, rep)
    else [s[0]] + Replace(s[1..], pat, rep)
  }

  /** `pat` does not occur in `s` at all (`pat not in s`). */
  predicate Absent(s: string, pat: string) {
    forall i :: 0 <= i < |s| ==> !OccursAt(s, pat, i)
  }

  /** `pat` occurs in `s` exactly once, as its suffix. */
  predicate OnlyAsSuffix(s: string, pat: string) {
    EndsWith(s, pat) && forall i :: 0 <= i < |s| - |pat| ==> !OccursAt(s, pat, i)
  }

  function DigitChar(d: nat): char
    requires d < 10
  {
    ('0' as int + d) as char
  }

  /** `str(n)` for a natural number: decimal digits, no leading zero. */
  function NatToString(n: nat): string
    decreases n
  {
    if n < 10 then [DigitChar(n)] else NatToString(n / 10) + [DigitChar(n % 10)]
  }

  predicate IsDigit(c: char) {
    '0' <= c <= '9'
  }

  /** `c not in s`. */
  predicate Lacks(s: string, c: char) {
    forall i :: 0 <= i < |s| ==> s[i] != c
  }

  /** Index of the last `c` in `s`, or -1 when there is none (`s.rfind(c)`). */
  function RFind(s: string, c: char): (r: int)
    ensures -1 <= r < |s|
    ensures r >= 0 ==> s[r] == c
    ensures forall k :: r < k < |s| ==> s[k] != c
    decreases |s|
  {
    if s == [] then -1
    else if s[|s| - 1] == c then |s| - 1
    else RFind(s[..|s| - 1], c)
  }

  /** The last occurrence of `c` is where `rfind` finds it; with none,
      `rfind` gives -1. */
  lemma RFindAt(s: string, c: char, i: int)
    requires -1 <= i < |s|
    requires i >= 0 ==> s[i] == c
    requires forall k :: i < k < |s| ==> s[k] != c
    ensures RFind(s, c) == i
  {
  }

  /** `os.path.join(a, b)` (also `Path(a) / b`): an absolute `b` discards `a`. */
  function PathJoin(a: string, b: string): string {
    if StartsWith(b, "/") then b
    else if a == [] || EndsWith(a, "/") then a + b
    else a + "/" + b
  }

  // ---------------------------------------------------------------------
  // Lemmas about split and join
  // ---------------------------------------------------------------------

  lemma {:induction false} SplitFromWordPrefix(w: string, rest: string, cur: string)
    requires forall i :: 0 <= i < |w| ==> !IsSpace(w[i])
    ensures SplitFrom(w + rest, cur) == SplitFrom(rest, cur + w)
    decreases |w|
  {
    if w == [] {
      assert w + rest == rest && cur + w == cur;
    } else {
      assert (w + rest)[0] == w[0];
      assert (w + rest)[1..] == w[1..] + rest;
      assert cur + [w[0]] + w[1..] == cur + w;
      SplitFromWordPrefix(w[1..], rest, cur + [w[0]]);
    }
  }

  /** Splitting words joined by single spaces gives the words back. */
  lemma {:induction false} SplitJoin(ws: seq<string>)
    requires AllWords(ws)
    ensures Split(JoinWords(ws)) == ws
    decreases |ws|
  {
    if |ws| == 1 {
      assert ws[0] + [] == ws[0] && [] + ws[0] == ws[0];
      SplitFromWordPrefix(ws[0], [], []);
    } else if |ws| > 1 {
      var tail := JoinWords(ws[1..]);
      assert JoinWords(ws) == ws[0] + (" " + tail);
      SplitFromWordPrefix(ws[0], " " + tail, []);
      assert [] + ws[0] == ws[0];
      assert (" " + tail)[1..] == tail;
      SplitJoin(ws[1..]);
    }
  }

  /** Whatever `split()` returns is a sequence of words. */
  lemma {:induction false} SplitFromWords(s: string, cur: string)
    requires forall i :: 0 <= i < |cur| ==> !IsSpace(cur[i])
    ensures AllWords(SplitFrom(s, cur))
    decreases |s|
  {
    if s != [] {
      if IsSpace(s[0]) {
        SplitFromWords(s[1..], []);
      } else {
        SplitFromWords(s[1..], cur + [s[0]]);
      }
    }
  }

  /** A whitespace character separates the words before it from those after. */
  lemma {:induction false} SplitFromAtSpace(a: string, c: char, b: string, cur: string)
    requires IsSpace(c)
    ensures SplitFrom(a + [c] + b, cur) == SplitFrom(a, cur) + Split(b)
    decreases |a|
  {
    if a == [] {
      assert a + [c] + b == [c] + b;
      assert ([c] + b)[1..] == b;
    } else {
      assert (a + [c] + b)[0] == a[0];
      assert (a + [c] + b)[1..] == a[1..] + [c] + b;
      if IsSpace(a[0]) {
        SplitFromAtSpace(a[1..], c, b, []);
      } else {
        SplitFromAtSpace(a[1..], c, b, cur + [a[0]]);
      }
    }
  }

  lemma {:induction false} SplitLeadingSpace(c: char, b: string)
    requires IsSpace(c)
    ensures Split([c] + b) == Split(b)
  {
    assert ([c] + b)[1..] == b;
  }

  // ---------------------------------------------------------------------
  // Lemmas about strip
  // ---------------------------------------------------------------------

  lemma StripUnbordered(s: string)
    requires s == [] || (!IsSpace(s[0]) && !IsSpace(s[|s| - 1]))
    ensures Strip(s) == s
  {
  }

  lemma StripLeadingSpace(w: string)
    requires IsWord(w)
    ensures Strip(" " + w) == w
  {
    assert (" " + w)[1..] == w;
    assert StripLeft(" " + w) == StripLeft(w) == w;
    assert StripRight(w) == w;
  }

  lemma JoinWordsBorders(ws: seq<string>)
    requires AllWords(ws) && ws != []
    ensures |JoinWords(ws)| > 0
    ensures JoinWords(ws)[0] == ws[0][0]
    ensures JoinWords(ws)[|JoinWords(ws)| - 1] == ws[|ws| - 1][|ws[|ws| - 1]| - 1]
    decreases |ws|
  {
    if |ws| > 1 {
      var tail := JoinWords(ws[1..]);
      JoinWordsBorders(ws[1..]);
      assert JoinWords(ws) == ws[0] + " " + tail;
      assert IsWord(ws[0]);
    }
  }

  /** Appending a word: `(" ".join(ws) + " " + w).strip() == " ".join(ws + [w])`. */
  lemma {:induction false} StripJoinAppend(ws: seq<string>, w: string)
    requires AllWords(ws) && IsWord(w)
    ensures Strip(JoinWords(ws) + " " + w) == JoinWords(ws + [w])
    ensures |JoinWords(ws + [w])| == (if ws == [] then |w| else |JoinWords(ws)| + 1 + |w|)
    decreases |ws|
  {
    if ws == [] {
      assert JoinWords([] + [w]) == w by { assert [] + [w] == [w]; }
      StripLeadingSpace(w);
    } else {
      JoinAppend(ws, w);
      JoinWordsBorders(ws);
      StripUnbordered(JoinWords(ws) + " " + w);
    }
  }

  lemma {:induction false} JoinAppend(ws: seq<string>, w: string)
    requires ws != []
    ensures JoinWords(ws + [w]) == JoinWords(ws) + " " + w
    decreases |ws|
  {
    if |ws| == 1 {
      assert ws + [w] == [ws[0], w];
    } else {
      assert (ws + [w])[1..] == ws[1..] + [w];
      JoinAppend(ws[1..], w);
    }
  }

  // ---------------------------------------------------------------------
  // Lemmas about replace and str(n)
  // ---------------------------------------------------------------------

  lemma OccursAtTail(s: string, pat: string, i: int)
    requires s != [] && 0 <= i
    ensures OccursAt(s[1..], pat, i) <==> OccursAt(s, pat, i + 1)
  {
    if i + |pat| <= |s| - 1 {
      assert s[1..][i..i + |pat|] == s[i + 1..i + 1 + |pat|];
    }
  }

  /** Replacing a pattern that occurs only as the suffix rewrites just that suffix. */
  lemma {:induction false} ReplaceOnlySuffix(s: string, pat: string, rep: string)
    requires pat != []
    requires OnlyAsSuffix(s, pat)
    ensures Replace(s, pat, rep) == s[..|s| - |pat|] + rep
    decreases |s|
  {
    if |s| == |pat| {
      assert s[..|pat|] == pat;
      assert s[|pat|..] == [];
    } else {
      var t := s[1..];
      assert s[..|pat|] != pat by {
        assert !OccursAt(s, pat, 0);
      }
      assert Replace(s, pat, rep) == [s[0]] + Replace(t, pat, rep);
      assert OnlyAsSuffix(t, pat) by {
        assert t[|t| - |pat|..] == s[|s| - |pat|..];
        forall i | 0 <= i < |t| - |pat|
          ensures !OccursAt(t, pat, i)
        {
          OccursAtTail(s, pat, i);
        }
      }
      ReplaceOnlySuffix(t, pat, rep);
      assert [s[0]] + t[..|t| - |pat|] == s[..|s| - |pat|];
    }
  }

  /** A pattern appended to a string that lacks its first character occurs
      in the result only as the suffix. */
  lemma OnlyAsSuffixAppended(p: string, pat: string)
    requires pat != [] && Lacks(p, pat[0])
    ensures OnlyAsSuffix(p + pat, pat)
  {
    var t := p + pat;
    forall i | 0 <= i < |t| - |pat| ensures !OccursAt(t, pat, i) {
      assert t[i] == p[i];
      assert t[i..i + |pat|][0] == t[i];
    }
    assert t[|t| - |pat|..] == pat;
  }

  /** A string without any occurrence of the pattern is left unchanged. */
  lemma {:induction false} ReplaceAbsent(s: string, pat: string, rep: string)
    requires pat != []
    requires Absent(s, pat)
    ensures Replace(s, pat, rep) == s
    decreases |s|
  {
    if |s| >= |pat| {
      assert !OccursAt(s, pat, 0);
      forall i | 0 <= i < |s[1..]|
        ensures !OccursAt(s[1..], pat, i)
      {
        OccursAtTail(s, pat, i);
      }
      ReplaceAbsent(s[1..], pat, rep);
    }
  }

  lemma {:induction false} NatToStringDigits(n: nat)
    ensures |NatToString(n)| >= 1
    ensures n >= 10 ==> |NatToString(n)| >= 2
    ensures forall i :: 0 <= i < |NatToString(n)| ==> IsDigit(NatToString(n)[i])
    decreases n
  {
    if n >= 10 {
      NatToStringDigits(n / 10);
    }
  }

  /** Different numbers have different decimal representations. */
  lemma {:induction false} NatToStringInjective(m: nat, n: nat)
    requires NatToString(m) == NatToString(n)
    ensures m == n
    decreases m
  {
    NatToStringDigits(m);
    NatToStringDigits(n);
    var s := NatToString(m);
    if m < 10 || n < 10 {
      assert m < 10 && n < 10;
      assert s[0] == DigitChar(m) && s[0] == DigitChar(n);
    } else {
      assert s[|s| - 1] == DigitChar(m % 10) && s[|s| - 1] == DigitChar(n % 10);
      assert NatToString(m / 10) == s[..|s| - 1] == NatToString(n / 10);
      NatToStringInjective(m / 10, n / 10);
    }
  }
}
