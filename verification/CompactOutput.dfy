/**
 The console of scripts/_compact_output.py: cleaned output is buffered, then appended to a
 log, and the real stdout gets status lines and one pointer line into that log.
 */
module CompactOutput {
  import opened Common
  import opened Texts

  // ---------------------------------------------------------------- colour codes

  predicate InCode(c: char) {
    '0' <= c <= '9' || c == ';'
  }

  /** The length of the run of digits and semicolons at the start. */
  function CodeRun(s: string): (n: nat)
    ensures n <= |s| && (forall i | 0 <= i < n :: InCode(s[i])) && (n < |s| ==> !InCode(s[n]))
  {
    if s == "" || !InCode(s[0]) then 0 else 1 + CodeRun(s[1..])
  }

  /** The length of the match of \\x1b\\[[0-9;]*m at the start; 0 when there is none. */
  function CodeAt(s: string): (n: nat)
    ensures n <= |s|
  {
    if |s| < 3 || s[0] != '\U{1b}' || s[1] != '[' then 0
    else
      var run := CodeRun(s[2..]);
      if 2 + run < |s| && s[2 + run] == 'm' then 3 + run else 0
  }

  /** _ANSI_RE.sub("", text) */
  function Clean(s: string): string
    decreases |s|
  {
    if s == "" then ""
    else if CodeAt(s) > 0 then Clean(s[CodeAt(s)..])
    else [s[0]] + Clean(s[1..])
  }

  /** A colour code begun and not ended. */
  predicate OpenCode(s: string) {
    s != "" && s[0] == '\U{1b}' && (|s| == 1 || (s[1] == '[' && CodeRun(s[2..]) == |s| - 2))
  }

  predicate OpenAtEnd(s: string) {
    exists i :: 0 <= i < |s| && OpenCode(s[i..])
  }

  lemma {:induction false} RunStays(s: string, t: string)
    ensures CodeRun(s) < |s| ==> CodeRun(s + t) == CodeRun(s)
    ensures CodeRun(s) == |s| ==> CodeRun(s + t) == |s| + CodeRun(t)
  {
    if s == "" {
      assert s + t == t;
    } else {
      assert (s + t)[1..] == s[1..] + t;
      RunStays(s[1..], t);
    }
  }

  /** Unless a code is open, what follows does not change whether one is here. */
  lemma CodeStays(a: string, b: string)
    requires a != "" && !OpenCode(a)
    ensures CodeAt(a + b) == CodeAt(a)
  {
    if |a| >= 2 {
      assert (a + b)[2..] == a[2..] + b;
      RunStays(a[2..], b);
    }
  }

  lemma OpenFurther(a: string, k: nat)
    requires 0 < k <= |a|
    ensures OpenAtEnd(a[k..]) ==> OpenAtEnd(a)
    ensures OpenAtEnd(a) && !OpenCode(a) && (forall i | 0 < i < k :: a[i] != '\U{1b}') ==> OpenAtEnd(a[k..])
  {
    if j :| 0 <= j < |a[k..]| && OpenCode(a[k..][j..]) {
      assert a[k..][j..] == a[k + j..];
    }
    if i :| 0 <= i < |a| && OpenCode(a[i..]) {
      assert i == 0 ==> a[i..] == a;
      assert i >= k ==> a[k..][i - k..] == a[i..];
      assert a[i..][0] == a[i];
    }
  }

  /** How far Clean moves in one step, and what it leaves of that. */
  function Width(s: string): (k: nat)
    requires s != ""
    ensures 0 < k <= |s|
  {
    if CodeAt(s) > 0 then CodeAt(s) else 1
  }

  function Left(s: string): string
    requires s != ""
  {
    if CodeAt(s) > 0 then "" else [s[0]]
  }

  lemma CleanStep(a: string, b: string)
    requires a != "" && !OpenCode(a)
    ensures Clean(a) == Left(a) + Clean(a[Width(a)..])
    ensures Clean(a + b) == Left(a) + Clean(a[Width(a)..] + b)
  {
    CodeStays(a, b);
    assert (a + b)[Width(a)..] == a[Width(a)..] + b;
  }

  lemma CodeHasOneEscape(s: string)
    requires s != ""
    ensures forall i | 0 < i < Width(s) :: s[i] != '\U{1b}'
  {
    if CodeAt(s) > 0 {
      forall i | 0 < i < Width(s)
        ensures s[i] != '\U{1b}'
      {
        assert i >= 2 ==> s[i] == s[2..][i - 2];
      }
    }
  }

  lemma Joins(h: string, x: string, y: string, z: string)
    ensures h + z == h + x + y <==> z == x + y
  {
    assert h + x + y == h + (x + y);
    assert (h + z)[|h|..] == z && (h + (x + y))[|h|..] == x + y;
  }

  lemma {:induction false} CleanAppend(a: string, b: string)
    requires !OpenAtEnd(a)
    ensures Clean(a + b) == Clean(a) + Clean(b)
    decreases |a|
  {
    if a == "" {
      assert a + b == b;
    } else {
      assert a[0..] == a;
      OpenFurther(a, Width(a));
      CleanStep(a, b);
      CleanAppend(a[Width(a)..], b);
      Joins(Left(a), Clean(a[Width(a)..]), Clean(b), Clean(a[Width(a)..] + b));
    }
  }

  lemma Completed(a: string, b: string)
    requires OpenCode(a) && b == if |a| == 1 then "[m" else "m"
    ensures Clean(a) != "" && Clean(a + b) == ""
  {
    assert CodeAt(a) == 0;
    if |a| == 1 {
      assert (a + b)[2..] == "m";
    } else {
      assert (a + b)[2..] == a[2..] + b;
      RunStays(a[2..], b);
    }
    assert (a + b)[|a + b|..] == "";
  }

  lemma {:induction false} OpenCodeSurvives(a: string) returns (b: string)
    requires OpenAtEnd(a)
    ensures Clean(a + b) != Clean(a) + Clean(b)
    decreases |a|
  {
    if OpenCode(a) {
      b := if |a| == 1 then "[m" else "m";
      Completed(a, b);
    } else {
      var k := Width(a);
      CodeHasOneEscape(a);
      OpenFurther(a, k);
      b := OpenCodeSurvives(a[k..]);
      CleanStep(a, b);
      Joins(Left(a), Clean(a[k..]), Clean(b), Clean(a[k..] + b));
    }
  }

  /** Cleaning write by write is cleaning the whole output, whatever comes next, exactly when
      the writes so far leave no colour code open. */
  lemma CleanExact(a: string)
    ensures (forall b :: Clean(a + b) == Clean(a) + Clean(b)) <==> !OpenAtEnd(a)
  {
    if OpenAtEnd(a) {
      var b := OpenCodeSurvives(a);
    } else {
      forall b
        ensures Clean(a + b) == Clean(a) + Clean(b)
      {
        CleanAppend(a, b);
      }
    }
  }

  /** A colour code between plain text goes, and the text stays. */
  lemma CodeCleaned(plain: string, digits: string, rest: string)
    requires '\U{1b}' !in plain && forall c | c in digits :: InCode(c)
    ensures Clean(plain + (Code(digits) + rest)) == plain + Clean(rest)
  {
    hide Clean, Code;
    PlainCleaned(plain, Code(digits) + rest);
    CodeGoes(digits, rest);
  }

  lemma {:induction false} PlainCleaned(plain: string, rest: string)
    requires '\U{1b}' !in plain
    ensures Clean(plain + rest) == plain + Clean(rest)
  {
    if plain == "" {
      assert plain + rest == rest;
    } else {
      hide Clean;
      var c, more := plain[0], plain[1..];
      PlainCleaned(more, rest);
      PlainStays(c, more + rest);
      assert c in plain && [c] + (more + rest) == plain + rest;
      assert [c] + (more + Clean(rest)) == plain + Clean(rest);
    }
  }

  function Code(digits: string): string {
    ['\U{1b}', '['] + digits + ['m']
  }

  lemma PlainStays(c: char, text: string)
    requires c != '\U{1b}'
    ensures Clean([c] + text) == [c] + Clean(text)
  {
    assert ([c] + text)[1..] == text;
  }

  lemma CodeGoes(digits: string, rest: string)
    requires forall c | c in digits :: InCode(c)
    ensures Clean(Code(digits) + rest) == Clean(rest)
  {
    var s := Code(digits) + rest;
    assert s[2..] == digits + (['m'] + rest);
    RunOf(digits, ['m'] + rest);
    assert s[3 + |digits|..] == rest;
  }

  lemma {:induction false} RunOf(digits: string, rest: string)
    requires (forall c | c in digits :: InCode(c)) && (rest != "" ==> !InCode(rest[0]))
    ensures CodeRun(digits + rest) == |digits|
  {
    if digits == "" {
      assert "" + rest == rest;
    } else {
      assert digits[0] in digits;
      assert (digits + rest)[1..] == digits[1..] + rest;
      RunOf(digits[1..], rest);
    }
  }

  // ---------------------------------------------------------------- lines of the log

  /** _count_lines: lines end in a newline, the last perhaps in none. */
  function CountLines(s: string): nat {
    |SplitLines(s)|
  }

  datatype Pointer =
    | NoLog(tail: string)
    | Log(path: string, offset: nat, lines: int)

  datatype Output = StatusLine(text: string) | PointerLine(pointer: Pointer)

  const TAIL_CHARS := 4000

  function Tail(s: string): string {
    if |s| <= TAIL_CHARS then s else s[|s| - TAIL_CHARS..]
  }

  /** The tail is the output's end: all of it, or its last 4000 characters. */
  lemma TailExact(s: string)
    ensures exists front :: s == front + Tail(s)
    ensures |Tail(s)| == if |s| <= 4000 then |s| else 4000
  {
    var front := s[..|s| - |Tail(s)|];
    assert s == front + Tail(s);
  }

  lemma {:induction false} LastCharacter(lines: seq<string>)
    requires lines != [] && WellSplit(lines)
    ensures Concat(lines) != "" && (Ended(Concat(lines)) <==> Ended(lines[|lines| - 1]))
  {
    if |lines| == 1 {
      assert lines[1..] == [] && Concat(lines) == lines[0];
    } else {
      DropFirstLine(lines);
      LastCharacter(lines[1..]);
      assert lines[1..][|lines| - 2] == lines[|lines| - 1];
    }
  }

  lemma EndedLines(s: string)
    requires s == "" || Ended(s)
    ensures forall i | 0 <= i < |SplitLines(s)| :: Ended(SplitLines(s)[i])
  {
    JoinSplit(s);
    if SplitLines(s) != [] {
      LastCharacter(SplitLines(s));
    }
  }

  lemma WellSplitConcat(xs: seq<string>, ys: seq<string>)
    requires WellSplit(xs) && WellSplit(ys) && forall i | 0 <= i < |xs| :: Ended(xs[i])
    ensures SplitLines(Concat(xs) + Concat(ys)) == xs + ys
  {
    assert forall i | 0 <= i < |xs + ys| :: (xs + ys)[i] == if i < |xs| then xs[i] else ys[i - |xs|];
    ConcatAppend(xs, ys);
    SplitJoin(xs + ys);
  }

  /** Appending to whole lines appends lines. */
  lemma WholeLinesAppend(a: string, b: string)
    requires a == "" || Ended(a)
    ensures SplitLines(a + b) == SplitLines(a) + SplitLines(b)
  {
    JoinSplit(a);
    JoinSplit(b);
    EndedLines(a);
    WellSplitConcat(SplitLines(a), SplitLines(b));
  }

  lemma JoinOpen(front: seq<string>, x: string, y: string, rest: seq<string>)
    ensures Concat(front + [x]) + Concat([y] + rest) == Concat(front + [x + y] + rest)
  {
    assert [x][1..] == [] && ([y] + rest)[1..] == rest && ([x + y] + rest)[1..] == rest;
    ConcatAppend(front, [x]);
    ConcatAppend(front, [x + y] + rest);
    assert front + [x + y] + rest == front + ([x + y] + rest);
    assert Concat([x + y] + rest) == x + y + Concat(rest);
    assert Concat([x]) == x;
  }

  lemma OpenConcat(xs: seq<string>, ys: seq<string>)
    requires xs != [] && ys != [] && WellSplit(xs) && WellSplit(ys) && !Ended(xs[|xs| - 1])
    ensures SplitLines(Concat(xs) + Concat(ys)) == xs[..|xs| - 1] + [xs[|xs| - 1] + ys[0]] + ys[1..]
  {
    var front, x, y, rest := xs[..|xs| - 1], xs[|xs| - 1], ys[0], ys[1..];
    assert xs == front + [x] && ys == [y] + rest;
    JoinOpen(front, x, y, rest);
    JoinedIsWellSplit(xs, ys, front + [x + y] + rest);
    SplitJoin(front + [x + y] + rest);
  }

  /** Appending to a text whose last line is open: the first new line joins it. */
  lemma OpenLineAppend(a: string, b: string)
    requires a != "" && !Ended(a) && b != ""
    ensures SplitLines(a) != [] && SplitLines(b) != []
    ensures var xs, ys := SplitLines(a), SplitLines(b);
            SplitLines(a + b) == xs[..|xs| - 1] + [xs[|xs| - 1] + ys[0]] + ys[1..]
  {
    JoinSplit(a);
    JoinSplit(b);
    LastCharacter(SplitLines(a));
    OpenConcat(SplitLines(a), SplitLines(b));
  }

  lemma JoinedIsWellSplit(xs: seq<string>, ys: seq<string>, joined: seq<string>)
    requires xs != [] && ys != [] && WellSplit(xs) && WellSplit(ys) && !Ended(xs[|xs| - 1])
    requires joined == xs[..|xs| - 1] + [xs[|xs| - 1] + ys[0]] + ys[1..]
    ensures WellSplit(joined)
  {
    var n := |xs| - 1;
    var x, y := xs[n], ys[0];
    assert (x + y)[..|x + y| - 1] == x + y[..|y| - 1];
    assert x == x[..|x| - 1] + [x[|x| - 1]];
    assert Ended(y) ==> Ended(x + y);
    forall i | 0 <= i < |joined|
      ensures joined[i] == if i < n then xs[i] else if i == n then x + y else ys[i - n]
    {
    }
  }

  /** log_offset and log_lines name lines of the log: those appended, exactly when the log was
      empty, ended in a newline, or nothing was appended. Else the first is missed. */
  lemma PointerExact(prior: string, added: string)
    ensures var at := CountLines(prior);
            var lines := SplitLines(prior + added);
            && at <= |lines|
            && (lines[at..] == SplitLines(added) <==> prior == "" || Ended(prior) || added == "")
            && (lines[at..] != SplitLines(added) ==> SplitLines(added) != [] && lines[at..] == SplitLines(added)[1..])
  {
    if prior == "" || Ended(prior) {
      WholeLinesAppend(prior, added);
    } else if added == "" {
      assert prior + added == prior;
      assert SplitLines(added) == [];
    } else {
      OpenLineAppend(prior, added);
      var xs, ys := SplitLines(prior), SplitLines(added);
      assert SplitLines(prior + added)[|xs|..] == ys[1..];
    }
  }

  // ---------------------------------------------------------------- the console

  /** The log file: none yet, open for appending, or closed. */
  datatype Target = Unattached | Open | Shut

  function CountPointers(out: seq<Output>): nat {
    if out == [] then 0
    else CountPointers(out[..|out| - 1]) + (if out[|out| - 1].PointerLine? then 1 else 0)
  }

  /** The texts of the status lines, in order. */
  function Statuses(out: seq<Output>): seq<string> {
    if out == [] then []
    else
      var front, last := Statuses(out[..|out| - 1]), out[|out| - 1];
      if last.StatusLine? then front + [last.text] else front
  }

  lemma OnePointerMore(out: seq<Output>, p: Pointer)
    ensures CountPointers(out + [PointerLine(p)]) == CountPointers(out) + 1
    ensures Statuses(out + [PointerLine(p)]) == Statuses(out)
  {
    assert (out + [PointerLine(p)])[..|out|] == out;
  }

  class CompactConsole {
    var stdout: seq<Output>
    var path: string
    var buffer: string
    var target: Target
    var log: string        // what the file at path holds
    var offset: nat
    var closed: bool
    ghost var written: string        // everything written, cleaned
    ghost var prior: string          // what the log held before
    ghost var announced: seq<string> // the status lines

    /** Each cleaned character is in one place, in order: the buffer, or the log after what
        the log held; the real stdout has the status lines and, once closed, one pointer. */
    ghost predicate Valid()
      reads this
    {
      && (target.Unattached? ==> buffer == written)
      && (!target.Unattached? ==> buffer == "" && log == prior + written && offset == CountLines(prior) + 1)
      && (target.Shut? ==> closed)
      && CountPointers(stdout) == (if closed then 1 else 0)
      && Statuses(stdout) == announced
    }

    constructor ()
      ensures Valid() && target.Unattached? && !closed && written == "" && stdout == [] && announced == []
    {
      stdout, path, buffer, target, log, offset, closed := [], "", "", Unattached, "", 0, false;
      written, prior, announced := "", "", [];
    }

    /** write; not ok: the file is closed and raises. */
    method Write(text: string) returns (ok: bool)
      requires Valid()
      modifies this`buffer, this`log, this`written
      ensures Valid()
      ensures ok <==> !target.Shut?
      ensures written == if ok then old(written) + Clean(text) else old(written)
    {
      var clean := Clean(text);
      if target.Shut? {
        return false;
      }
      if target.Open? {
        log := log + clean;
        assert log == prior + (old(written) + clean);
      } else {
        buffer := buffer + clean;
      }
      written := written + clean;
      ok := true;
    }

    /** attach, for a file that holds the given text. */
    method Attach(p: string, holds: string)
      requires Valid()
      modifies this`buffer, this`log, this`target, this`path, this`offset, this`prior
      ensures Valid()
      ensures old(target).Unattached? ==> target.Open? && path == p && prior == holds
      ensures !old(target).Unattached? ==>
                target == old(target) && path == old(path) && prior == old(prior) && log == old(log)
    {
      if !target.Unattached? {
        return;
      }
      offset := CountLines(holds) + 1;
      target := Open;
      log := holds + buffer;
      buffer := "";
      path := p;
      prior := holds;
    }

    /** status; it raises after its line is out when the file is closed. */
    method Status(line: string) returns (ok: bool)
      requires Valid()
      modifies this`stdout, this`announced, this`buffer, this`log, this`written
      ensures Valid()
      ensures stdout == old(stdout) + [StatusLine(line)] && announced == old(announced) + [line]
      ensures ok <==> !target.Shut?
      ensures written == if ok then old(written) + Clean(line + "\n") else old(written)
    {
      stdout := stdout + [StatusLine(line)];
      announced := announced + [line];
      ok := Write(line + "\n");
    }

    /** The payload for the output so far: the end of it, or where it is in the log. */
    ghost function Here(): Pointer
      reads this
    {
      if target.Unattached? then NoLog(Tail(written)) else PointerInto(path, prior, written)
    }

    /** pointer; None: flushing the closed file raises. */
    method PointerNow() returns (info: Option<Pointer>)
      requires Valid()
      ensures info == if target.Shut? then None else Some(Here())
    {
      match target {
        case Unattached => return Some(NoLog(Tail(buffer)));
        case Shut => return None;
        case Open => return Some(Log(path, offset, CountLines(log) - offset + 1));
      }
    }

    /** close: the first time one pointer line, after that nothing. */
    method Close()
      requires Valid()
      modifies this`stdout, this`target, this`closed
      ensures Valid() && closed
      ensures old(closed) ==> stdout == old(stdout) && target == old(target)
      ensures !old(closed) ==>
                stdout == old(stdout) + [PointerLine(old(Here()))]
                    && (target == if old(target).Open? then Shut else old(target))
    {
      if closed {
        return;
      }
      var info := PointerNow();
      Announce(info.value);
    }

    /** The last lines of close: the file shut, the pointer printed. */
    method Announce(info: Pointer)
      requires Valid() && !closed
      modifies this`stdout, this`target, this`closed
      ensures Valid() && closed && stdout == old(stdout) + [PointerLine(info)]
      ensures target == if old(target).Open? then Shut else old(target)
    {
      closed := true;
      if target.Open? {
        target := Shut;
      }
      OnePointerMore(stdout, info);
      stdout := stdout + [PointerLine(info)];
    }
  }

  /** The pointer into a log that held prior and got added. */
  function PointerInto(path: string, prior: string, added: string): Pointer {
    Log(path, CountLines(prior) + 1, CountLines(prior + added) - CountLines(prior))
  }

  /** The lines named are exactly those appended, if and only if the log held whole lines
      before or nothing was appended. */
  lemma NamedExact(path: string, prior: string, added: string)
    ensures NamedLines(prior + added, PointerInto(path, prior, added)) == SplitLines(added)
            <==> prior == "" || Ended(prior) || added == ""
  {
    PointerExact(prior, added);
    var lines, at := SplitLines(prior + added), CountLines(prior);
    assert lines[at..at + (|lines| - at)] == lines[at..];
  }

  /** The lines of the log a pointer names. */
  function NamedLines(log: string, p: Pointer): seq<string> {
    var lines := SplitLines(log);
    if p.Log? && 1 <= p.offset && 0 <= p.lines && p.offset - 1 + p.lines <= |lines|
    then lines[p.offset - 1..p.offset - 1 + p.lines] else []
  }
}
