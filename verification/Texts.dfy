/** Python's string splitting and slicing, as the scripts use them. */
module Texts {

  /** str.split(sep) for a one-character separator. */
  function SplitOn(s: string, sep: char): (parts: seq<string>)
    ensures |parts| >= 1
  {
    if s == "" then [""]
    else
      var rest := SplitOn(s[1..], sep);
      if s[0] == sep then [""] + rest
      else [[s[0]] + rest[0]] + rest[1..]
  }

  /** "".join(parts) */
  function Concat(parts: seq<string>): string {
    if parts == [] then "" else parts[0] + Concat(parts[1..])
  }

  /** sep.join(parts) */
  function JoinWith(parts: seq<string>, sep: char): string {
    if parts == [] then ""
    else if |parts| == 1 then parts[0]
    else parts[0] + [sep] + JoinWith(parts[1..], sep)
  }

  /** s[i:j], negative indices counted from the end. */
  function PySlice<T>(s: seq<T>, i: int, j: int): seq<T> {
    var lo, hi := PyIndex(|s|, i), PyIndex(|s|, j);
    if lo < hi then s[lo..hi] else []
  }

  function PyIndex(len: nat, i: int): (r: nat)
    ensures r <= len
  {
    if i < 0 then (if i + len < 0 then 0 else i + len) else if i > len then len else i
  }

  lemma {:induction false} ConcatAppend(a: seq<string>, b: seq<string>)
    ensures Concat(a + b) == Concat(a) + Concat(b)
  {
    if a == [] {
      assert a + b == b;
    } else {
      ConcatAppend(a[1..], b);
      assert (a + b)[1..] == a[1..] + b;
    }
  }

  // ---------------------------------------------------------------- lines

  /** split_lines of ci/hunk_revert.py: split on \n only, each line keeping its \n. */
  function SplitLines(text: string): seq<string> {
    var parts := SplitOn(text, '\n');
    var last := parts[|parts| - 1];
    seq(|parts| - 1, i requires 0 <= i < |parts| - 1 => parts[i] + "\n") + (if last != "" then [last] else [])
  }

  /** Lines a text can have: none empty, \n only at a line's end, and only the last without. */
  predicate WellSplit(lines: seq<string>) {
    && (forall i | 0 <= i < |lines| :: lines[i] != "" && '\n' !in lines[i][..|lines[i]| - 1])
    && (forall i | 0 <= i < |lines| - 1 :: Ended(lines[i]))
  }

  predicate Ended(line: string) {
    line != "" && line[|line| - 1] == '\n'
  }

  /** The lines of split parts, first part first. */
  function LinesOf(parts: seq<string>): seq<string>
    requires parts != []
  {
    if |parts| == 1 then (if parts[0] != "" then [parts[0]] else [])
    else [parts[0] + "\n"] + LinesOf(parts[1..])
  }

  lemma {:induction false} SplitLinesIsLinesOf(parts: seq<string>)
    requires parts != []
    ensures seq(|parts| - 1, i requires 0 <= i < |parts| - 1 => parts[i] + "\n")
            + (if parts[|parts| - 1] != "" then [parts[|parts| - 1]] else [])
         == LinesOf(parts)
  {
    if |parts| > 1 {
      var rest := parts[1..];
      SplitLinesIsLinesOf(rest);
      assert seq(|parts| - 1, i requires 0 <= i < |parts| - 1 => parts[i] + "\n")
          == [parts[0] + "\n"] + seq(|rest| - 1, i requires 0 <= i < |rest| - 1 => rest[i] + "\n");
    }
  }

  lemma SplitOnNonEmpty(s: string, sep: char)
    requires s != "" && |SplitOn(s, sep)| == 1
    ensures SplitOn(s, sep)[0] == s
  {
    if |s| > 1 {
      SplitOnNonEmpty(s[1..], sep);
    }
  }

  lemma GrowFirstPart(c: char, rest: seq<string>)
    requires rest != []
    ensures LinesOf([[c] + rest[0]] + rest[1..]) ==
            if LinesOf(rest) == [] then [[c]] else [[c] + LinesOf(rest)[0]] + LinesOf(rest)[1..]
  {
    var parts := [[c] + rest[0]] + rest[1..];
    assert parts[1..] == rest[1..];
    if |rest| == 1 {
      assert rest[0] == "" ==> [c] + rest[0] == [c];
    } else {
      var first := rest[0] + "\n";
      assert [c] + first == ([c] + rest[0]) + "\n";
      assert LinesOf(rest) == [first] + LinesOf(rest[1..]);
      assert LinesOf(rest)[1..] == LinesOf(rest[1..]);
    }
  }

  /** SplitLines peels a text character by character. */
  lemma SplitLinesStep(c: char, text: string)
    ensures text != "" ==> SplitLines(text) != []
    ensures SplitLines([c] + text) ==
            if c == '\n' then ["\n"] + SplitLines(text)
            else if SplitLines(text) == [] then [[c]]
            else [[c] + SplitLines(text)[0]] + SplitLines(text)[1..]
  {
    var whole := [c] + text;
    assert whole[1..] == text;
    var parts, rest := SplitOn(whole, '\n'), SplitOn(text, '\n');
    SplitLinesIsLinesOf(parts);
    SplitLinesIsLinesOf(rest);
    if text != "" && |rest| == 1 {
      SplitOnNonEmpty(text, '\n');
    }
    if c == '\n' {
      assert parts == [""] + rest && parts[1..] == rest;
      assert "" + "\n" == "\n";
    } else {
      GrowFirstPart(c, rest);
    }
  }

  /** Joining the lines gives back the text. */
  lemma {:induction false} JoinSplit(text: string)
    ensures Concat(SplitLines(text)) == text
    ensures WellSplit(SplitLines(text))
  {
    if text != "" {
      var c, rest := text[0], text[1..];
      assert text == [c] + rest;
      JoinSplit(rest);
      SplitLinesStep(c, rest);
      if c == '\n' {
        GrowWithNewline(SplitLines(rest));
      } else {
        GrowFirstLine(c, SplitLines(rest));
      }
    }
  }

  lemma GrowWithNewline(lines: seq<string>)
    requires WellSplit(lines)
    ensures WellSplit(["\n"] + lines) && Concat(["\n"] + lines) == "\n" + Concat(lines)
  {
    var more := ["\n"] + lines;
    assert more[1..] == lines;
    assert forall i | 1 <= i < |more| :: more[i] == lines[i - 1];
  }

  lemma GrowFirstLine(c: char, lines: seq<string>)
    requires WellSplit(lines) && c != '\n'
    ensures var more := if lines == [] then [[c]] else [[c] + lines[0]] + lines[1..];
            WellSplit(more) && Concat(more) == [c] + Concat(lines)
  {
    if lines == [] {
      assert [[c]][1..] == [];
    } else {
      var first := [c] + lines[0];
      var more := [first] + lines[1..];
      assert more[1..] == lines[1..];
      assert first[..|first| - 1] == [c] + lines[0][..|lines[0]| - 1];
      assert forall i | 1 <= i < |more| :: more[i] == lines[i];
      assert Ended(lines[0]) ==> Ended(first);
    }
  }

  /** Splitting a join gives back the lines exactly when they are a text's lines. */
  lemma SplitJoin(lines: seq<string>)
    ensures SplitLines(Concat(lines)) == lines <==> WellSplit(lines)
  {
    if WellSplit(lines) {
      SplitJoinWell(lines);
    }
    JoinSplit(Concat(lines));
  }

  lemma {:induction false} SplitJoinWell(lines: seq<string>)
    requires WellSplit(lines)
    ensures SplitLines(Concat(lines)) == lines
    decreases |Concat(lines)|
  {
    if lines != [] {
      var first, others := lines[0], lines[1..];
      var c, tail := first[0], first[1..];
      assert Concat(lines) == [c] + (tail + Concat(others));
      SplitLinesStep(c, tail + Concat(others));
      if tail == "" {
        assert tail + Concat(others) == Concat(others);
        DropFirstLine(lines);
        SplitJoinWell(others);
        assert lines == [[c]] + others;
      } else {
        ShortenFirstLine(lines);
        SplitJoinWell([tail] + others);
        assert first == [c] + tail;
        assert lines == [[c] + tail] + others;
      }
    }
  }

  lemma DropFirstLine(lines: seq<string>)
    requires lines != [] && WellSplit(lines)
    ensures WellSplit(lines[1..])
    ensures lines[1..] != [] ==> Ended(lines[0])
  {
    assert forall i | 0 <= i < |lines[1..]| :: lines[1..][i] == lines[i + 1];
  }

  lemma ShortenFirstLine(lines: seq<string>)
    requires lines != [] && WellSplit(lines) && |lines[0]| > 1
    ensures WellSplit([lines[0][1..]] + lines[1..]) && lines[0][0] != '\n'
    ensures Concat([lines[0][1..]] + lines[1..]) == lines[0][1..] + Concat(lines[1..])
  {
    var first := lines[0];
    var tail := first[1..];
    var shorter := [tail] + lines[1..];
    assert shorter[1..] == lines[1..];
    assert tail[..|tail| - 1] == first[..|first| - 1][1..];
    assert first[..|first| - 1][0] == first[0];
    assert forall i | 1 <= i < |shorter| :: shorter[i] == lines[i];
    assert Ended(first) ==> Ended(tail);
  }

  lemma OneLine(a: string)
    requires WellSplit([a])
    ensures SplitLines(a) == [a]
  {
    assert [a][1..] == [];
    assert Concat([a]) == a + Concat([]) == a;
    SplitJoinWell([a]);
  }

  lemma TwoLines(a: string, b: string)
    requires WellSplit([a, b])
    ensures SplitLines(a + b) == [a, b]
  {
    assert [a, b][1..] == [b] && [b][1..] == [];
    assert Concat([a, b]) == a + Concat([b]) && Concat([b]) == b;
    SplitJoinWell([a, b]);
  }
}
