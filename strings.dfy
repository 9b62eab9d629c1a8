/** The Option wrapper used throughout for Python's `None`. */
module Wrappers {

  datatype Option<+T> = None | Some(value: T) {

    /** Returns the value in Some, or `default` for None. */
    function GetOr(default: T): T {
      match this
      case Some(v) => v
      case None => default
    }
  }
}

/**
 * The few operations on Python `str` values that the extractors and the
 * linker rely on, written out with Python's semantics: `strip`, `split`,
 * `replace`, `startswith`/`endswith`, `in` on substrings and `lower`.
 */
module Strings {
  import opened Wrappers

  /** Every character for which Python's `str.isspace()` holds; `str.strip()`
      with no argument removes exactly these from both ends. */
  const Whitespace: set<char> :=
    {' ', '\t', '\n', '\r', '\U{0B}', '\U{0C}', '\U{1C}', '\U{1D}', '\U{1E}', '\U{1F}',
     '\U{85}', '\U{A0}', '\U{1680}', '\U{2000}', '\U{2001}', '\U{2002}', '\U{2003}',
     '\U{2004}', '\U{2005}', '\U{2006}', '\U{2007}', '\U{2008}', '\U{2009}', '\U{200A}',
     '\U{2028}', '\U{2029}', '\U{202F}', '\U{205F}', '\U{3000}'}

  /** `s.lstrip(chars)` for the character set `cs`. */
  function StripStart(s: string, cs: set<char>): (r: string)
    ensures |r| <= |s|
  {
    if s != [] && s[0] in cs then StripStart(s[1..], cs) else s
  }

  /** `s.rstrip(chars)` for the character set `cs`. */
  function StripEnd(s: string, cs: set<char>): (r: string)
    ensures |r| <= |s|
  {
    if s != [] && s[|s| - 1] in cs then StripEnd(s[..|s| - 1], cs) else s
  }

  /** `s.strip(chars)`: removes every leading and every trailing character in
      `cs`, however many there are. */
  function Strip(s: string, cs: set<char>): (r: string)
    ensures |r| <= |s|
  {
    StripEnd(StripStart(s, cs), cs)
  }

  /** `lstrip` keeps a suffix of `s` that does not start with a character in `cs`. */
  lemma {:induction false} StripStartShape(s: string, cs: set<char>)
    ensures var r := StripStart(s, cs); r == s[|s| - |r|..] && (r == [] || r[0] !in cs)
  {
    if s != [] && s[0] in cs {
      StripStartShape(s[1..], cs);
    }
  }

  /** `rstrip` keeps a prefix of `s` that does not end with a character in `cs`. */
  lemma {:induction false} StripEndShape(s: string, cs: set<char>)
    ensures var r := StripEnd(s, cs); r == s[..|r|] && (r == [] || r[|r| - 1] !in cs)
  {
    if s != [] && s[|s| - 1] in cs {
      StripEndShape(s[..|s| - 1], cs);
    }
  }

  /** Neither end of what `strip` keeps is a character in `cs`. */
  lemma StripEnds(s: string, cs: set<char>)
    ensures var r := Strip(s, cs); r == [] || (r[0] !in cs && r[|r| - 1] !in cs)
  {
    var left := StripStart(s, cs);
    StripStartShape(s, cs);
    StripEndShape(left, cs);
    var r := StripEnd(left, cs);
    assert r != [] ==> r[0] == left[0];
  }

  /** `strip()` leaves no whitespace at either end. */
  lemma TrimTrimmed(s: string)
    ensures IsTrimmed(Trim(s))
  {
    StripEnds(s, Whitespace);
  }

  /** `lstrip` removes exactly a prefix of characters in `cs`. */
  lemma {:induction false} StripStartRemoves(s: string, cs: set<char>)
    ensures forall i | 0 <= i < |s| - |StripStart(s, cs)| :: s[i] in cs
  {
    if s != [] && s[0] in cs {
      StripStartRemoves(s[1..], cs);
      assert forall i | 1 <= i < |s| :: s[1..][i - 1] == s[i];
    }
  }

  /** `rstrip` removes exactly a suffix of characters in `cs`. */
  lemma {:induction false} StripEndRemoves(s: string, cs: set<char>)
    ensures forall i | |StripEnd(s, cs)| <= i < |s| :: s[i] in cs
  {
    if s != [] && s[|s| - 1] in cs {
      StripEndRemoves(s[..|s| - 1], cs);
    }
  }

  /** `strip` keeps a middle slice of `s`, removing only characters in `cs`
      before and after it; it leaves nothing exactly when every character of
      `s` is in `cs`. */
  lemma StripSlice(s: string, cs: set<char>)
    ensures var a := |s| - |StripStart(s, cs)|;
      && a + |Strip(s, cs)| <= |s|
      && Strip(s, cs) == s[a..a + |Strip(s, cs)|]
      && (forall i | 0 <= i < a :: s[i] in cs)
      && (forall i | a + |Strip(s, cs)| <= i < |s| :: s[i] in cs)
    ensures Strip(s, cs) == [] <==> forall i | 0 <= i < |s| :: s[i] in cs
  {
    var left := StripStart(s, cs);
    var r := Strip(s, cs);
    StripStartShape(s, cs);
    StripEndShape(left, cs);
    StripEnds(s, cs);
    StripStartRemoves(s, cs);
    StripEndRemoves(left, cs);
    var a := |s| - |left|;
    assert r == s[a..a + |r|];
    forall i | a + |r| <= i < |s| ensures s[i] in cs {
      assert s[i] == left[i - a];
    }
    if r != [] {
      assert s[a] == r[0] && s[a] !in cs;
    }
  }

  /** Stripping a second time with the same characters changes nothing. */
  lemma StripTwice(s: string, cs: set<char>)
    ensures Strip(Strip(s, cs), cs) == Strip(s, cs)
  {
    var r := Strip(s, cs);
    StripEnds(s, cs);
    if r != [] {
      assert StripStart(r, cs) == r;
      assert StripEnd(r, cs) == r;
    }
  }

  /** `s.strip()`: removes leading and trailing whitespace. */
  function Trim(s: string): (r: string)
    ensures |r| <= |s|
  {
    Strip(s, Whitespace)
  }

  /** `strip()` leaves a string with no whitespace at either end unchanged. */
  lemma TrimmedFixed(s: string)
    requires IsTrimmed(s)
    ensures Trim(s) == s
  {
    assert StripStart(s, Whitespace) == s;
  }

  /** A string with no whitespace at either end. */
  predicate IsTrimmed(s: string) {
    s == [] || (s[0] !in Whitespace && s[|s| - 1] !in Whitespace)
  }

  /** `s.startswith(p)`. */
  predicate StartsWith(s: string, p: string) {
    p <= s
  }

  /** `s.endswith(p)`. */
  predicate EndsWith(s: string, p: string) {
    |p| <= |s| && s[|s| - |p|..] == p
  }

  /** `p in s` for strings: `p` occurs somewhere in `s` as a substring. */
  predicate Contains(s: string, p: string) {
    exists i | 0 <= i <= |s| - |p| :: OccursAt(s, p, i)
  }

  /** `p` occurs in `s` starting at position `i`. */
  predicate OccursAt(s: string, p: string, i: int) {
    0 <= i <= |s| - |p| && s[i..i + |p|] == p
  }

  /** `s.replace(pat, rep)`: occurrences of `pat` found scanning left to
      right, never overlapping, each replaced by `rep`. */
  function ReplaceAll(s: string, pat: string, rep: string): (r: string)
    requires pat != []
    ensures !Contains(s, pat) ==> r == s
    decreases |s|
  {
    if |s| < |pat| then s
    else if s[..|pat|] == pat then
      assert OccursAt(s, pat, 0);
      rep + ReplaceAll(s[|pat|..], pat, rep)
    else
      assert !Contains(s, pat) ==> !Contains(s[1..], pat) by {
        if Contains(s[1..], pat) {
          var i :| 0 <= i <= |s[1..]| - |pat| && OccursAt(s[1..], pat, i);
          assert s[1..][i..i + |pat|] == s[i + 1..i + 1 + |pat|];
          assert OccursAt(s, pat, i + 1);
        }
      }
      [s[0]] + ReplaceAll(s[1..], pat, rep)
  }

  /** `replace` on the pattern alone gives the replacement. */
  lemma ReplaceWhole(pat: string, rep: string)
    requires pat != []
    ensures ReplaceAll(pat, pat, rep) == rep
  {
    assert pat[..|pat|] == pat;
    assert pat[|pat|..] == [];
  }

  /** Splitting off the first character commutes with appending. */
  lemma ConsAppend(n: string, rep: string)
    requires n != []
    ensures [n[0]] + (n[1..] + rep) == n + rep
  {
  }

  /** `replace` keeps a first character that does not start an occurrence. */
  lemma ReplaceSkip(n: string, pat: string, rep: string)
    requires pat != [] && n != [] && !OccursAt(n + pat, pat, 0)
    ensures ReplaceAll(n + pat, pat, rep) == [n[0]] + ReplaceAll(n[1..] + pat, pat, rep)
  {
    var s := n + pat;
    assert s[..|pat|] != pat;
    assert s[1..] == n[1..] + pat;
  }

  /** Dropping the first character keeps the text free of early occurrences. */
  lemma NoEarlyOccurrenceTail(n: string, pat: string)
    requires n != []
    requires forall i | 0 <= i < |n| :: !OccursAt(n + pat, pat, i)
    ensures forall i | 0 <= i < |n[1..]| :: !OccursAt(n[1..] + pat, pat, i)
  {
    forall i | 0 <= i < |n[1..]|
      ensures !OccursAt(n[1..] + pat, pat, i)
    {
      assert !OccursAt(n + pat, pat, i + 1);
    }
  }

  /** When a text ends with the pattern and the pattern occurs nowhere
      earlier in it, `replace` changes exactly that trailing occurrence. */
  lemma {:induction false} ReplaceOnlySuffix(n: string, pat: string, rep: string)
    requires pat != []
    requires forall i | 0 <= i < |n| :: !OccursAt(n + pat, pat, i)
    ensures ReplaceAll(n + pat, pat, rep) == n + rep
    decreases |n|
  {
    if n == [] {
      ReplaceWhole(pat, rep);
      assert n + pat == pat && n + rep == rep;
    } else {
      var tail := n[1..];
      ReplaceSkip(n, pat, rep);
      NoEarlyOccurrenceTail(n, pat);
      ReplaceOnlySuffix(tail, pat, rep);
      ConsAppend(n, rep);
    }
  }

  /** Replaces every occurrence of the character `a` by `b`. */
  function ReplaceChar(s: string, a: char, b: char): (r: string)
    ensures |r| == |s|
    ensures forall i | 0 <= i < |s| :: r[i] == if s[i] == a then b else s[i]
  {
    seq(|s|, i requires 0 <= i < |s| => if s[i] == a then b else s[i])
  }

  /** `s.lower()` restricted to the ASCII letters. */
  function Lower(s: string): (r: string)
    ensures |r| == |s|
  {
    seq(|s|, i requires 0 <= i < |s| => if 'A' <= s[i] <= 'Z' then (s[i] as int + 32) as char else s[i])
  }

  /** Joining after extending the last part extends the joined text. */
  lemma JoinExtendLast(parts: seq<string>, sep: char, c: char)
    requires parts != []
    ensures Join(parts[..|parts| - 1] + [parts[|parts| - 1] + [c]], sep) == Join(parts, sep) + [c]
  {
    var r := parts[..|parts| - 1] + [parts[|parts| - 1] + [c]];
    assert r[..|r| - 1] == parts[..|parts| - 1];
  }

  /** Joining after adding an empty part adds a separator. */
  lemma JoinAddEmpty(parts: seq<string>, sep: char)
    requires parts != []
    ensures Join(parts + [""], sep) == Join(parts, sep) + [sep]
  {
    assert (parts + [""])[..|parts|] == parts;
  }

  /** The pieces of `s` between occurrences of `sep`, joined back by `sep`. */
  function Join(parts: seq<string>, sep: char): string
  {
    if parts == [] then ""
    else if |parts| == 1 then parts[0]
    else Join(parts[..|parts| - 1], sep) + [sep] + parts[|parts| - 1]
  }

  /** `s.split(sep)` for a one-character separator: never empty, no piece
      holds the separator, and joining the pieces by `sep` gives `s` back. */
  function Split(s: string, sep: char): (r: seq<string>)
    ensures |r| >= 1
    ensures forall k | 0 <= k < |r| :: sep !in r[k]
    ensures Join(r, sep) == s
  {
    if s == [] then [""]
    else
      var front := Split(s[..|s| - 1], sep);
      var c := s[|s| - 1];
      assert s == s[..|s| - 1] + [c];
      if c == sep then
        front + [""]
      else
        var r := front[..|front| - 1] + [front[|front| - 1] + [c]];
        assert r[..|r| - 1] == front[..|front| - 1];
        assert |front| > 1 ==> Join(front, sep) == Join(front[..|front| - 1], sep) + [sep] + front[|front| - 1];
        r
  }

  /** `p` is the text of `s` before its first `sep`, or the whole of `s`
      when it has no `sep`: `s.split(sep)[0]`. */
  predicate HeadPart(s: string, sep: char, p: string) {
    sep !in p && (s == p || StartsWith(s, p + [sep]))
  }

  /** A text has one head part only. */
  lemma HeadPartUnique(s: string, sep: char, p: string, q: string)
    requires HeadPart(s, sep, p) && HeadPart(s, sep, q)
    ensures p == q
  {
    if |p| <= |q| {
      ShorterHeadPart(s, sep, p, q);
    } else {
      ShorterHeadPart(s, sep, q, p);
    }
  }

  /** A prefix agrees with the text at each of its positions. */
  lemma PrefixIndex(s: string, q: string, i: nat)
    requires StartsWith(s, q) && i < |q|
    ensures q[i] == s[i]
  {
  }

  lemma ShorterHeadPart(s: string, sep: char, p: string, q: string)
    requires HeadPart(s, sep, p) && HeadPart(s, sep, q) && |p| <= |q|
    ensures p == q
  {
    if |p| < |q| {
      PrefixIndex(s, q, |p|); assert false;
    } else {
      assert p == s[..|p|] && q == s[..|q|];
    }
  }

  /** With more than one piece, joining is the first piece, the separator,
      then the rest joined. */
  lemma {:induction false} JoinCons(parts: seq<string>, sep: char)
    requires |parts| > 1
    ensures Join(parts, sep) == parts[0] + [sep] + Join(parts[1..], sep)
    decreases |parts|
  {
    var front := parts[..|parts| - 1];
    var last := parts[|parts| - 1];
    if |parts| == 2 {
      assert front == [parts[0]] && parts[1..] == [last];
    } else {
      JoinCons(front, sep);
      var tail := parts[1..];
      assert tail[..|tail| - 1] == front[1..] && tail[|tail| - 1] == last;
      assert Join(tail, sep) == Join(front[1..], sep) + [sep] + last;
    }
  }

  /** The first of some separator-free pieces is the head part of their
      join, and what follows it and the separator is the join of the rest. */
  lemma JoinHead(parts: seq<string>, sep: char)
    requires parts != [] && forall k | 0 <= k < |parts| :: sep !in parts[k]
    ensures HeadPart(Join(parts, sep), sep, parts[0])
    ensures |parts| > 1 ==>
      |parts[0]| < |Join(parts, sep)| && Join(parts, sep)[|parts[0]| + 1..] == Join(parts[1..], sep)
  {
    if |parts| > 1 {
      JoinCons(parts, sep);
      var rest := Join(parts[1..], sep);
      assert Join(parts, sep) == (parts[0] + [sep]) + rest;
    }
  }

  /** `s.split(sep)[0]` is the head part of `s`. */
  lemma SplitHead(s: string, sep: char)
    ensures HeadPart(s, sep, Split(s, sep)[0])
  {
    JoinHead(Split(s, sep), sep);
  }

  /** The position of the last occurrence of `c` in `s`, if any. */
  function LastIndexOf(s: string, c: char): (r: Option<nat>)
    ensures r.None? <==> c !in s
    ensures r.Some? ==> r.value < |s| && s[r.value] == c && c !in s[r.value + 1..]
  {
    if s == [] then None
    else if s[|s| - 1] == c then Some(|s| - 1)
    else
      var r := LastIndexOf(s[..|s| - 1], c);
      assert s == s[..|s| - 1] + [s[|s| - 1]];
      r
  }

  /** The elements of `xs` that are not the empty string, in order. */
  function NonEmpty(xs: seq<string>): (r: seq<string>)
    ensures |r| <= |xs|
  {
    if xs == [] then []
    else
      var front := NonEmpty(xs[..|xs| - 1]);
      var x := xs[|xs| - 1];
      if x == [] then front else front + [x]
  }

  /** What `NonEmpty` keeps is exactly the non-empty elements of `xs`. */
  lemma {:induction false} NonEmptyMembers(xs: seq<string>)
    ensures forall x :: x in NonEmpty(xs) <==> x in xs && x != []
  {
    if xs != [] {
      NonEmptyMembers(xs[..|xs| - 1]);
      assert xs == xs[..|xs| - 1] + [xs[|xs| - 1]];
    }
  }
}
