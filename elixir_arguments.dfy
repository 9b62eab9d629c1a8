/**
 * `_parse_arguments` of the Elixir extractor: the text of an argument list
 * is split at the commas that stand outside every `()`, `{}` and `[]`, and
 * the pieces are trimmed, empty ones dropped.
 *
 * The reference definition splits the whole text into `Pieces` at the
 * top-level commas; `ParseArguments` is the character loop of the source,
 * proved to produce the same arguments.
 */
module ElixirArguments {
  import opened Strings

  const Opening: set<char> := {'(', '{', '['}
  const Closing: set<char> := {')', '}', ']'}
  const Parens: set<char> := {'(', ')'}

  /** How reading `c` changes the bracket depth. */
  function Delta(c: char): int {
    if c in Opening then 1 else if c in Closing then -1 else 0
  }

  /** A comma is no bracket. */
  lemma CommaDelta()
    ensures Delta(',') == 0
  {
  }

  /** The bracket depth after reading all of `s`; an unmatched closing
      bracket makes it negative, as the source's counter does. */
  function Depth(s: string): int {
    if s == [] then 0 else Depth(s[..|s| - 1]) + Delta(s[|s| - 1])
  }

  /** `s[k]` is a comma at depth zero, where the source splits. */
  predicate IsTopComma(s: string, k: int) {
    0 <= k < |s| && s[k] == ',' && Depth(s[..k]) == 0
  }

  /** The number of commas at depth zero in `s`. */
  function TopCommas(s: string): nat {
    if s == [] then 0
    else TopCommas(s[..|s| - 1]) + if IsTopComma(s, |s| - 1) then 1 else 0
  }

  /** The untrimmed text between consecutive depth-zero commas. */
  function Pieces(s: string): (r: seq<string>)
    ensures |r| >= 1
  {
    if s == [] then [""]
    else
      var front := Pieces(s[..|s| - 1]);
      var c := s[|s| - 1];
      if c == ',' && Depth(s[..|s| - 1]) == 0 then front + [""]
      else front[..|front| - 1] + [front[|front| - 1] + [c]]
  }

  /** Joining the pieces with commas gives the text back. */
  lemma {:induction false} PiecesJoin(s: string)
    ensures Join(Pieces(s), ',') == s
  {
    if s != [] {
      var p := s[..|s| - 1];
      var c := s[|s| - 1];
      var front := Pieces(p);
      PiecesJoin(p);
      assert s == p + [c];
      if c == ',' && Depth(p) == 0 {
        JoinAddEmpty(front, ',');
      } else {
        JoinExtendLast(front, ',', c);
      }
    }
  }

  /** There is one piece more than there are depth-zero commas. */
  lemma {:induction false} PiecesCount(s: string)
    ensures |Pieces(s)| == TopCommas(s) + 1
  {
    if s != [] {
      PiecesCount(s[..|s| - 1]);
      assert s[..|s| - 1] == s[..|s| - 1];
    }
  }

  /** Where piece `j` ends (in `s`), the separator that follows it. */
  function SeparatorAt(ps: seq<string>, j: nat): nat
    requires j < |ps|
  {
    |Join(ps[..j + 1], ',')|
  }

  /** Each separator between two pieces is a comma at depth zero: commas
      inside brackets never split. */
  lemma {:induction false} PiecesSplitAtTopCommas(s: string)
    ensures forall j | 0 <= j < |Pieces(s)| - 1 :: IsTopComma(s, SeparatorAt(Pieces(s), j))
  {
    if s != [] {
      var p := s[..|s| - 1];
      var c := s[|s| - 1];
      var front := Pieces(p);
      var r := Pieces(s);
      PiecesSplitAtTopCommas(p);
      PiecesJoin(p);
      forall j | 0 <= j < |r| - 1 ensures IsTopComma(s, SeparatorAt(r, j)) {
        if j < |front| - 1 {
          assert r[..j + 1] == front[..j + 1];
          var k := SeparatorAt(front, j);
          assert IsTopComma(p, k);
          assert s[..k] == p[..k];
        } else {
          assert c == ',' && Depth(p) == 0;
          assert r[..j + 1] == front;
          assert s[..|p|] == p;
        }
      }
    }
  }

  /** With no comma at depth zero, the text is one piece. */
  lemma OnePiece(s: string)
    requires TopCommas(s) == 0
    ensures Pieces(s) == [s]
  {
    PiecesCount(s);
    PiecesJoin(s);
  }

  /** Each piece trimmed. */
  function TrimAll(ps: seq<string>): (r: seq<string>)
    ensures |r| == |ps|
  {
    if ps == [] then [] else TrimAll(ps[..|ps| - 1]) + [Trim(ps[|ps| - 1])]
  }

  lemma {:induction false} TrimAllAt(ps: seq<string>)
    ensures forall k | 0 <= k < |ps| :: TrimAll(ps)[k] == Trim(ps[k])
  {
    if ps != [] {
      TrimAllAt(ps[..|ps| - 1]);
    }
  }

  /** The pieces trimmed, the empty ones dropped. */
  function Cleaned(ps: seq<string>): seq<string> {
    NonEmpty(TrimAll(ps))
  }

  lemma CleanedSnoc(ps: seq<string>, x: string)
    ensures Cleaned(ps + [x]) == Cleaned(ps) + if Trim(x) == [] then [] else [Trim(x)]
  {
    assert (ps + [x])[..|ps|] == ps;
    assert TrimAll(ps + [x]) == TrimAll(ps) + [Trim(x)];
    assert (TrimAll(ps) + [Trim(x)])[..|ps|] == TrimAll(ps);
  }

  lemma CleanedTrimmed(ps: seq<string>)
    ensures forall k | 0 <= k < |Cleaned(ps)| :: Cleaned(ps)[k] != [] && IsTrimmed(Cleaned(ps)[k])
  {
    var ts := TrimAll(ps);
    TrimAllAt(ps);
    NonEmptyMembers(ts);
    forall k | 0 <= k < |Cleaned(ps)| ensures Cleaned(ps)[k] != [] && IsTrimmed(Cleaned(ps)[k]) {
      var a := Cleaned(ps)[k];
      assert a in NonEmpty(ts);
      var m :| 0 <= m < |ts| && ts[m] == a;
      TrimTrimmed(ps[m]);
    }
  }

  /** The argument list `_parse_arguments` returns for `argsText`: every
      leading and trailing parenthesis is stripped (however many), a blank
      remainder gives no arguments, and otherwise the depth-zero pieces are
      trimmed and the empty ones dropped. */
  function Arguments(argsText: string): seq<string> {
    var t := Strip(argsText, Parens);
    if Trim(t) == [] then [] else Cleaned(Pieces(t))
  }

  /** A blank text gives no arguments; otherwise there are never more
      arguments than depth-zero commas plus one, and each is non-empty and
      trimmed. */
  lemma ArgumentsShape(argsText: string)
    ensures var t := Strip(argsText, Parens);
      var args := Arguments(argsText);
      && (Trim(t) == [] ==> args == [])
      && |args| <= TopCommas(t) + 1
      && forall k | 0 <= k < |args| :: args[k] != [] && IsTrimmed(args[k])
  {
    var t := Strip(argsText, Parens);
    PiecesCount(t);
    CleanedTrimmed(Pieces(t));
  }

  /** Text with no comma at depth zero gives at most one argument: the whole
      text, trimmed. */
  lemma SingleArgument(argsText: string)
    requires TopCommas(Strip(argsText, Parens)) == 0
    ensures var a := Trim(Strip(argsText, Parens));
      Arguments(argsText) == if a == [] then [] else [a]
  {
    var t := Strip(argsText, Parens);
    OnePiece(t);
    CleanedSnoc([], t);
  }

  /** How reading one more character extends the depth and the pieces. */
  lemma PiecesSnoc(p: string, c: char)
    ensures Depth(p + [c]) == Depth(p) + Delta(c)
    ensures var front := Pieces(p);
      Pieces(p + [c]) ==
        if c == ',' && Depth(p) == 0 then front + [""]
        else front[..|front| - 1] + [front[|front| - 1] + [c]]
  {
    assert (p + [c])[..|p|] == p;
  }

  /** The loop's state after reading `read`: the depth, the piece being
      collected and the arguments of the pieces already closed. */
  predicate LoopState(read: string, depth: int, current: string, args: seq<string>) {
    var ps := Pieces(read);
    depth == Depth(read) && current == ps[|ps| - 1] && args == Cleaned(ps[..|ps| - 1])
  }

  /** The character loop of `_parse_arguments`. */
  method ParseArguments(argsText: string) returns (args: seq<string>)
    ensures args == Arguments(argsText)
  {
    var text := Strip(argsText, Parens);
    if Trim(text) == [] {
      return [];
    }
    args := SplitTopLevel(text);
  }

  /** Reading a character that is not a depth-zero comma extends the piece
      being collected and moves the depth. */
  lemma StepExtends(read: string, ch: char, depth: int, current: string, args: seq<string>)
    requires LoopState(read, depth, current, args)
    requires !(ch == ',' && depth == 0)
    ensures LoopState(read + [ch], depth + Delta(ch), current + [ch], args)
  {
    PiecesSnoc(read, ch);
    var ps := Pieces(read);
    var qs := Pieces(read + [ch]);
    assert qs[..|qs| - 1] == ps[..|ps| - 1];
  }

  /** Reading a depth-zero comma closes the piece being collected. */
  lemma StepSplits(read: string, depth: int, current: string, args: seq<string>)
    requires LoopState(read, depth, current, args)
    requires depth == 0
    ensures LoopState(read + [','], depth, "", args + if Trim(current) == [] then [] else [Trim(current)])
  {
    PiecesSnoc(read, ',');
    var ps := Pieces(read);
    var qs := Pieces(read + [',']);
    assert qs == ps + [""];
    assert qs[..|qs| - 1] == ps;
    var front := ps[..|ps| - 1];
    assert ps == front + [current];
    CleanedSnoc(front, current);
    CommaDelta();
    assert Depth(read + [',']) == depth;
    assert qs[|qs| - 1] == "";
    assert Cleaned(qs[..|qs| - 1]) == args + if Trim(current) == [] then [] else [Trim(current)];
  }

  /** At the end of the text the last piece is flushed. */
  lemma StepFlush(read: string, depth: int, current: string, args: seq<string>)
    requires LoopState(read, depth, current, args)
    ensures Cleaned(Pieces(read)) == args + if Trim(current) == [] then [] else [Trim(current)]
  {
    var ps := Pieces(read);
    assert ps == ps[..|ps| - 1] + [ps[|ps| - 1]];
    CleanedSnoc(ps[..|ps| - 1], ps[|ps| - 1]);
  }

  /** The loop over the characters of the stripped text. */
  method SplitTopLevel(text: string) returns (args: seq<string>)
    ensures args == Cleaned(Pieces(text))
  {
    args := [];
    var depth := 0;
    var current := "";
    var i := 0;
    while i < |text|
      invariant 0 <= i <= |text|
      invariant LoopState(text[..i], depth, current, args)
    {
      var ch := text[i];
      assert text[..i + 1] == text[..i] + [ch];
      if ch == ',' && depth == 0 {
        StepSplits(text[..i], depth, current, args);
        var arg := Trim(current);
        if arg != [] {
          args := args + [arg];
        }
        current := "";
      } else {
        StepExtends(text[..i], ch, depth, current, args);
        if ch in Opening {
          depth := depth + 1;
        } else if ch in Closing {
          depth := depth - 1;
        }
        current := current + [ch];
      }
      i := i + 1;
    }
    assert text[..i] == text;
    StepFlush(text, depth, current, args);
    var arg := Trim(current);
    if arg != [] {
      args := args + [arg];
    }
  }
}
