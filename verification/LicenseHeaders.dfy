/**
 The licence-header inserter and its recogniser (scripts/license_headers.py): what a second
 run sees of a header the first one inserted. A text is its lines, each with its line end;
 the regular expressions are parameters.
 */
module LicenseHeaders {
  import opened Common

  datatype End = NoEnd | LF | CRLF | CR

  datatype Line = Line(text: string, end: End)

  /** A file: a byte order mark or none, and its lines. */
  datatype Source = Source(bom: bool, lines: seq<Line>)

  /** The lines a text can have: only the last may have no end, and then it is not empty; a
      carriage return before a newline is one line end. */
  predicate WellFormed(lines: seq<Line>) {
    && (forall i | 0 <= i < |lines| :: lines[i].end.NoEnd? ==> i == |lines| - 1 && lines[i].text != "")
    && (forall i | 0 <= i < |lines| - 1 :: lines[i].end.CR? ==> lines[i + 1] != Line("", LF))
  }

  /** A language: its comment prefix, whether it is Python, whether it is JavaScript or
      TypeScript, the header's two lines and the patterns that depend on it. */
  datatype Language = Language(
    prefix: string, python: bool, script: bool, copyright: string, license: string,
    comment: string -> bool, spdx: string -> Option<string>, encoding: string -> bool)

  function HeaderLine(lang: Language, k: nat): string
    requires k < 2
  {
    lang.prefix + " " + if k == 0 then lang.copyright else lang.license
  }

  predicate StartsWith(s: string, t: string) {
    |t| <= |s| && s[..|t|] == t
  }

  predicate IsSpace(c: char) {
    c == ' ' || c == '\t' || c == '\n' || c == '\r' || c == '\U{0b}' || c == '\U{0c}'
  }

  function LStrip(s: string): string {
    if s != "" && IsSpace(s[0]) then LStrip(s[1..]) else s
  }

  function RStrip(s: string): string {
    if s != "" && IsSpace(s[|s| - 1]) then RStrip(s[..|s| - 1]) else s
  }

  /** str.strip() */
  function Strip(s: string): string {
    RStrip(LStrip(s))
  }

  predicate Blank(line: Line) {
    Strip(line.text) == ""
  }

  lemma {:induction false} LStripped(s: string)
    ensures LStrip(s) == "" <==> forall c | c in s :: IsSpace(c)
    ensures LStrip(s) != "" ==> !IsSpace(LStrip(s)[0])
  {
    if s != "" && IsSpace(s[0]) {
      LStripped(s[1..]);
      assert forall c :: c in s <==> c == s[0] || c in s[1..];
    }
  }

  lemma {:induction false} RStripped(s: string)
    requires s != "" && !IsSpace(s[0])
    ensures RStrip(s) != ""
  {
    if IsSpace(s[|s| - 1]) {
      RStripped(s[..|s| - 1]);
    }
  }

  /** A line is blank exactly if it holds white space only. */
  lemma BlankExact(line: Line)
    ensures Blank(line) <==> forall c | c in line.text :: IsSpace(c)
  {
    LStripped(line.text);
    if LStrip(line.text) != "" {
      RStripped(LStrip(line.text));
    }
  }

  /** What the patterns make of the header's own lines. */
  predicate ReadsHeader(lang: Language) {
    var first, second := Strip(HeaderLine(lang, 0)), Strip(HeaderLine(lang, 1));
    && first != "" && second != ""
    && lang.comment(first) && lang.spdx(first) == None
    && lang.comment(second) && lang.spdx(second).Some?
    && !StartsWith(HeaderLine(lang, 0), "#!") && !StartsWith(LStrip(HeaderLine(lang, 0)), "/*")
    && !lang.encoding(HeaderLine(lang, 0)) && !lang.encoding(HeaderLine(lang, 1))
  }

  // ---------------------------------------------------------------- _preamble

  /** The shebang and the encoding line. */
  function Opening(lang: Language, lines: seq<Line>): (k: nat)
    ensures k <= |lines| && k <= 2
  {
    var k := if lines != [] && StartsWith(lines[0].text, "#!") then 1 else 0;
    if lang.python && k < |lines| && k < 2 && lang.encoding(lines[k].text) then k + 1 else k
  }

  predicate WordChar(c: char) {
    'a' <= c <= 'z' || 'A' <= c <= 'Z' || '0' <= c <= '9' || c == '_'
  }

  /** The text starts with the word, and the word ends there. */
  predicate StartsWithWord(s: string, word: string) {
    StartsWith(s, word) && (|s| == |word| || !WordChar(s[|word|]))
  }

  /** A match of the docblock pragma pattern at the start: jest-, jsx, or the words flow and
      noflow, behind an @. */
  predicate PragmaAt(s: string) {
    && s != "" && s[0] == '@'
    && (|| StartsWith(s[1..], "jest-") || StartsWith(s[1..], "jsx")
        || StartsWithWord(s[1..], "flow") || StartsWithWord(s[1..], "noflow"))
  }

  predicate HasPragma(s: string) {
    exists i | 0 <= i < |s| :: PragmaAt(s[i..])
  }

  predicate EndsBlock(s: string) {
    exists i | 0 <= i < |s| - 1 :: s[i] == '*' && s[i + 1] == '/'
  }

  /** The first line from k on that ends a block comment. */
  function BlockEnd(lines: seq<Line>, k: nat): (r: Option<nat>)
    requires k <= |lines|
    ensures r.Some? ==> k <= r.value < |lines| && EndsBlock(lines[r.value].text)
    ensures forall i | k <= i < (if r.Some? then r.value else |lines|) :: !EndsBlock(lines[i].text)
    decreases |lines| - k
  {
    if k == |lines| then None
    else if EndsBlock(lines[k].text) then Some(k)
    else BlockEnd(lines, k + 1)
  }

  function EndText(end: End): string {
    match end
    case NoEnd => ""
    case LF => "\n"
    case CRLF => "\r\n"
    case CR => "\r"
  }

  /** The lines joined as the caller split them: with their line ends or without. */
  function Joined(lines: seq<Line>, ends: bool): string {
    if lines == [] then ""
    else Joined(lines[..|lines| - 1], ends)
         + lines[|lines| - 1].text + (if ends then EndText(lines[|lines| - 1].end) else "")
  }

  /** _preamble: how many lines stay above the header. */
  function Preamble(lang: Language, lines: seq<Line>, ends: bool): (k: nat)
    ensures Opening(lang, lines) <= k <= |lines|
  {
    var k := Opening(lang, lines);
    if lang.script && k < |lines| && StartsWith(LStrip(lines[k].text), "/*") then
      var end := BlockEnd(lines, k);
      if end.Some? && HasPragma(Joined(lines[k..end.value + 1], ends)) then end.value + 1 else k
    else k
  }

  /** A block comment from line o to the first line that ends one. */
  predicate Docblock(lines: seq<Line>, o: nat, e: nat) {
    && o <= e < |lines| && StartsWith(LStrip(lines[o].text), "/*") && EndsBlock(lines[e].text)
    && forall line | line in lines[o..e] :: !EndsBlock(line.text)
  }

  /** What stays above the header: a shebang, in Python an encoding line first or below it, in
      a script a block comment right there that holds a pragma. */
  lemma PreambleExact(lang: Language, lines: seq<Line>, ends: bool)
    ensures var k := Preamble(lang, lines, ends);
            var s := if |lines| > 0 && StartsWith(lines[0].text, "#!") then 1 else 0;
            var o := if lang.python && s < |lines| && lang.encoding(lines[s].text) then s + 1 else s;
            && o <= k <= |lines|
            && (k > o ==> lang.script && Docblock(lines, o, k - 1) && HasPragma(Joined(lines[o..k], ends)))
            && (k == o ==> !(lang.script && exists e: nat | Docblock(lines, o, e) ::
                               HasPragma(Joined(lines[o..e + 1], ends))))
  {
    hide HasPragma, Joined, EndsBlock, LStrip, StartsWith, BlockEnd;
    var o := Opening(lang, lines);
    BlockIs(lines, o);
  }

  lemma BlockIs(lines: seq<Line>, o: nat)
    requires o <= |lines|
    ensures forall e: nat | Docblock(lines, o, e) :: BlockEnd(lines, o) == Some(e)
    ensures o < |lines| && StartsWith(LStrip(lines[o].text), "/*") && BlockEnd(lines, o).Some? ==>
              Docblock(lines, o, BlockEnd(lines, o).value)
  {
    hide EndsBlock, LStrip, StartsWith;
    forall e: nat | Docblock(lines, o, e)
      ensures BlockEnd(lines, o) == Some(e)
    {
      assert forall i | o <= i < e :: lines[i] in lines[o..e];
    }
    if BlockEnd(lines, o).Some? {
      assert forall line | line in lines[o..BlockEnd(lines, o).value] :: !EndsBlock(line.text);
    }
  }

  // ---------------------------------------------------------------- spdx_identifier

  /** The identifier in the run of comment and blank lines at the start. */
  function Scan(lang: Language, lines: seq<Line>): Option<string> {
    if lines == [] then None
    else
      var stripped := Strip(lines[0].text);
      if stripped == "" then Scan(lang, lines[1..])
      else if !lang.comment(stripped) then None
      else if lang.spdx(stripped).Some? then lang.spdx(stripped)
      else Scan(lang, lines[1..])
  }

  /** The identifier is on line n, below comment and blank lines without one. */
  predicate FoundAt(lang: Language, lines: seq<Line>, n: nat, id: string) {
    && n < |lines| && !Blank(lines[n])
    && lang.comment(Strip(lines[n].text)) && lang.spdx(Strip(lines[n].text)) == Some(id)
    && forall line | line in lines[..n] :: Blank(line) || IsComment(lang, line)
  }

  /** A comment line without an identifier. */
  predicate IsComment(lang: Language, line: Line) {
    !Blank(line) && lang.comment(Strip(line.text)) && lang.spdx(Strip(line.text)).None?
  }

  lemma {:induction false} ScanExact(lang: Language, lines: seq<Line>, id: string)
    ensures Scan(lang, lines) == Some(id) <==> exists n: nat :: FoundAt(lang, lines, n, id)
  {
    if lines != [] {
      ScanExact(lang, lines[1..], id);
      forall n: nat
        ensures FoundAt(lang, lines, n + 1, id)
                <==> (Blank(lines[0]) || IsComment(lang, lines[0])) && FoundAt(lang, lines[1..], n, id)
      {
        if n + 1 < |lines| {
          assert lines[..n + 1] == [lines[0]] + lines[1..][..n];
        }
      }
      FoundHere(lang, lines, id);
      assert lines[..0] == [];
      assert FoundAt(lang, lines, 0, id)
             <==> !Blank(lines[0]) && lang.comment(Strip(lines[0].text)) && lang.spdx(Strip(lines[0].text)) == Some(id);
      assert Scan(lang, lines) == Some(id)
             <==> || FoundAt(lang, lines, 0, id)
                  || ((Blank(lines[0]) || IsComment(lang, lines[0])) && Scan(lang, lines[1..]) == Some(id));
    } else {
      assert forall n: nat :: !FoundAt(lang, lines, n, id);
    }
  }

  lemma FoundHere(lang: Language, lines: seq<Line>, id: string)
    requires lines != []
    requires forall n: nat :: FoundAt(lang, lines, n + 1, id)
               <==> (Blank(lines[0]) || IsComment(lang, lines[0])) && FoundAt(lang, lines[1..], n, id)
    ensures (exists n: nat :: FoundAt(lang, lines, n, id))
            <==> || FoundAt(lang, lines, 0, id)
                 || ((Blank(lines[0]) || IsComment(lang, lines[0]))
                     && exists n: nat :: FoundAt(lang, lines[1..], n, id))
  {
    if n: nat :| FoundAt(lang, lines, n, id) {
      if n > 0 {
        var m: nat := n - 1;
        assert m + 1 == n && FoundAt(lang, lines[1..], m, id);
      }
    }
    if n: nat :| FoundAt(lang, lines[1..], n, id) {
      if Blank(lines[0]) || IsComment(lang, lines[0]) {
        assert FoundAt(lang, lines, n + 1, id);
      }
    }
  }

  function Identifier(lang: Language, source: Source): Option<string> {
    Scan(lang, source.lines[Preamble(lang, source.lines, false)..])
  }

  method SpdxIdentifier(lang: Language, source: Source) returns (found: Option<string>)
    ensures found == Identifier(lang, source)
  {
    var lines := source.lines;
    var start := Preamble(lang, lines, false);
    for i := start to |lines|
      invariant Scan(lang, lines[start..]) == Scan(lang, lines[i..])
    {
      assert lines[i..][0] == lines[i] && lines[i..][1..] == lines[i + 1..];
      var stripped := Strip(lines[i].text);
      if stripped == "" {
        continue;
      }
      if !lang.comment(stripped) {
        return None;
      }
      if lang.spdx(stripped).Some? {
        return lang.spdx(stripped);
      }
    }
    found := None;
  }

  predicate HasHeader(lang: Language, source: Source) {
    Identifier(lang, source).Some?
  }

  // ---------------------------------------------------------------- add_header

  /** The line end the text uses first. */
  function Newline(lines: seq<Line>): End {
    if lines == [] then LF
    else if lines[0].end.CRLF? then CRLF
    else if lines[0].end.LF? then LF
    else Newline(lines[1..])
  }

  /** How many blank lines come first. */
  function Blanks(lines: seq<Line>): (n: nat)
    ensures n <= |lines| && (n < |lines| ==> !Blank(lines[n]))
    ensures forall i | 0 <= i < n :: Blank(lines[i])
  {
    if lines != [] && Blank(lines[0]) then 1 + Blanks(lines[1..]) else 0
  }

  function DropBlank(lines: seq<Line>): (rest: seq<Line>)
    ensures rest != [] ==> !Blank(rest[0])
  {
    lines[Blanks(lines)..]
  }

  function Ended(lines: seq<Line>, nl: End): seq<Line> {
    if lines != [] && lines[|lines| - 1].end.NoEnd? then lines[..|lines| - 1] + [lines[|lines| - 1].(end := nl)]
        else lines
  }

  function Header(lang: Language, nl: End): seq<Line> {
    [Line(HeaderLine(lang, 0), nl), Line(HeaderLine(lang, 1), nl)]
  }

  function WithHeader(lang: Language, lines: seq<Line>): seq<Line> {
    var keep := Preamble(lang, lines, true);
    Insert(lang, lines[..keep], Newline(lines), DropBlank(lines[keep..]))
  }

  /** The lines above, the header, and the rest below a blank line. */
  function Insert(lang: Language, top: seq<Line>, nl: End, rest: seq<Line>): seq<Line> {
    Ended(top, nl) + Header(lang, nl) + (if rest != [] then [Line("", nl)] else []) + rest
  }

  function Added(lang: Language, source: Source): Source {
    if HasHeader(lang, source) then source else source.(lines := WithHeader(lang, source.lines))
  }

  method AddHeader(lang: Language, source: Source) returns (after: Source)
    ensures after == Added(lang, source)
  {
    var found := SpdxIdentifier(lang, source);
    if found.Some? {
      return source;
    }
    var nl := Newline(source.lines);
    var lines := source.lines;
    var keep := Preamble(lang, lines, true);
    var rest := SkipBlank(lines[keep..]);
    var inserted := InsertLines(lang, lines[..keep], nl, rest);
    after := source.(lines := inserted);
  }

  method SkipBlank(lines: seq<Line>) returns (rest: seq<Line>)
    ensures rest == DropBlank(lines)
  {
    rest := lines;
    ghost var n := 0;
    while rest != [] && Blank(rest[0])
      invariant n <= |lines| && rest == lines[n..]
      invariant forall i | 0 <= i < n :: Blank(lines[i])
      decreases |rest|
    {
      assert rest[0] == lines[n];
      rest, n := rest[1..], n + 1;
    }
    assert n < |lines| ==> rest[0] == lines[n];
    assert n == Blanks(lines);
  }

  /** The end of add_header: the last kept line is ended, then the parts are put together. */
  method InsertLines(lang: Language, kept: seq<Line>, nl: End, rest: seq<Line>) returns (lines: seq<Line>)
    ensures lines == Insert(lang, kept, nl, rest)
  {
    var top := kept;
    if top != [] && top[|top| - 1].end.NoEnd? {
      top := top[|top| - 1 := top[|top| - 1].(end := nl)];
      assert top == Ended(kept, nl);
    }
    var blank := if rest != [] then [Line("", nl)] else [];
    lines := top + Header(lang, nl) + blank + rest;
  }

  // ---------------------------------------------------------------- what a second run sees

  /** A line that ends the scan. */
  predicate Code(lang: Language, line: Line) {
    !Blank(line) && !lang.comment(Strip(line.text))
  }

  /** The pragma docblock is seen with line ends only, and a line in it does not look like a
      comment: the scan for the identifier stops before the header. */
  predicate HeaderHidden(lang: Language, lines: seq<Line>) {
    var seen, kept := Preamble(lang, lines, false), Preamble(lang, lines, true);
    seen < kept && exists i | seen <= i < kept :: Code(lang, lines[i])
  }

  lemma {:induction false} JoinedByText(a: seq<Line>, b: seq<Line>)
    requires |a| == |b| && forall i | 0 <= i < |a| :: a[i].text == b[i].text
    ensures Joined(a, false) == Joined(b, false)
  {
    if a != [] {
      JoinedByText(a[..|a| - 1], b[..|b| - 1]);
    }
  }

  /** A block's end depends on the lines up to it. */
  lemma {:induction false} BlockEndLocal(a: seq<Line>, b: seq<Line>, k: nat, e: nat)
    requires k <= e < |a| && e < |b| && BlockEnd(a, k) == Some(e)
    requires forall i | 0 <= i <= e :: a[i].text == b[i].text
    ensures BlockEnd(b, k) == Some(e)
    decreases e - k
  {
    if k < e {
      BlockEndLocal(a, b, k + 1, e);
    }
  }

  /** Skipping lines the scan passes over. */
  lemma {:induction false} ScanPast(lang: Language, lines: seq<Line>, n: nat)
    requires n <= |lines|
    requires forall i | 0 <= i < n ::
               Blank(lines[i])
               || (lang.comment(Strip(lines[i].text)) && lang.spdx(Strip(lines[i].text)) == None)
    ensures Scan(lang, lines) == Scan(lang, lines[n..])
    decreases n
  {
    if n == 0 {
      assert lines[0..] == lines;
    } else {
      ScanPast(lang, lines[1..], n - 1);
      assert lines[1..][n - 1..] == lines[n..];
    }
  }

  /** Where the scan stops. */
  lemma {:induction false} ScanStops(lang: Language, lines: seq<Line>, n: nat)
    requires n < |lines| && Code(lang, lines[n])
    requires forall i | 0 <= i < n :: Blank(lines[i]) || lang.spdx(Strip(lines[i].text)) == None
    ensures Scan(lang, lines) == None
    decreases n
  {
    if n > 0 {
      ScanStops(lang, lines[1..], n - 1);
    }
  }

  /** A scan that finds nothing meets no identifier before the first code line. */
  lemma {:induction false} NothingFound(lang: Language, lines: seq<Line>, n: nat)
    requires n < |lines| && Scan(lang, lines) == None
    requires forall i | 0 <= i < n :: !Code(lang, lines[i])
    ensures Code(lang, lines[n]) || Blank(lines[n]) || lang.spdx(Strip(lines[n].text)) == None
    decreases n
  {
    if n > 0 {
      assert lines[1..][n - 1] == lines[n];
      NothingFound(lang, lines[1..], n - 1);
    }
  }

  lemma InsertPlaces(lang: Language, top: seq<Line>, nl: End, rest: seq<Line>)
    ensures var k, after := |top|, Insert(lang, top, nl, rest);
            && |after| == k + 2 + (if rest != [] then 1 + |rest| else 0)
            && (forall i | 0 <= i < k :: after[i].text == top[i].text)
            && after[k].text == HeaderLine(lang, 0) && after[k + 1].text == HeaderLine(lang, 1)
  {
  }

  /** The preamble lines keep their texts and places, and the header follows. */
  lemma HeaderInPlace(lang: Language, lines: seq<Line>)
    ensures var k, after := Preamble(lang, lines, true), WithHeader(lang, lines);
            && |after| >= k + 2
            && (forall i | 0 <= i < k :: after[i].text == lines[i].text)
            && after[k].text == HeaderLine(lang, 0) && after[k + 1].text == HeaderLine(lang, 1)
  {
    var k := Preamble(lang, lines, true);
    InsertPlaces(lang, lines[..k], Newline(lines), DropBlank(lines[k..]));
  }

  /** Lines that agree up to the header. */
  predicate SameAbove(lang: Language, lines: seq<Line>, after: seq<Line>, k: nat) {
    && k <= |lines| && k + 2 <= |after|
    && (forall i | 0 <= i < k :: after[i].text == lines[i].text)
    && after[k].text == HeaderLine(lang, 0) && after[k + 1].text == HeaderLine(lang, 1)
  }

  lemma OpeningAfter(lang: Language, lines: seq<Line>, after: seq<Line>, k: nat)
    requires ReadsHeader(lang) && SameAbove(lang, lines, after, k) && Opening(lang, lines) <= k
    ensures Opening(lang, after) == Opening(lang, lines)
  {
  }

  lemma BlockAfter(lang: Language, lines: seq<Line>, after: seq<Line>, o: nat, e: nat)
    requires SameAbove(lang, lines, after, e + 1) && o == Opening(lang, lines) == Opening(lang, after)
    requires o <= e && BlockEnd(lines, o) == Some(e)
    requires lang.script && StartsWith(LStrip(lines[o].text), "/*")
    ensures Preamble(lang, after, false) == if HasPragma(Joined(lines[o..e + 1], false)) then e + 1 else o
  {
    hide Opening, BlockEnd, Joined, HasPragma, StartsWith, LStrip;
    BlockEndLocal(lines, after, o, e);
    JoinedByText(lines[o..e + 1], after[o..e + 1]);
  }

  /** The second run's preamble is the one the first run's recogniser saw. */
  lemma PreambleAfter(lang: Language, lines: seq<Line>)
    requires ReadsHeader(lang)
    ensures var seen, kept := Preamble(lang, lines, false), Preamble(lang, lines, true);
            Preamble(lang, WithHeader(lang, lines), false) == if seen < kept then seen else kept
  {
    hide Preamble, WithHeader, Opening, BlockEnd, Joined, HasPragma, StartsWith, LStrip, ReadsHeader;
    var k, after := Preamble(lang, lines, true), WithHeader(lang, lines);
    var o := Opening(lang, lines);
    HeaderInPlace(lang, lines);
    OpeningAfter(lang, lines, after, k);
    if k > o {
      KeptBlock(lang, lines);
      BlockAfter(lang, lines, after, o, k - 1);
    } else {
      NoBlockAfter(lang, after, k);
    }
  }

  /** Lines kept beyond the opening are a pragma docblock's; without line ends it is the same
      block, with the pragma or without. */
  lemma KeptBlock(lang: Language, lines: seq<Line>)
    requires Preamble(lang, lines, true) > Opening(lang, lines)
    ensures var k, o := Preamble(lang, lines, true), Opening(lang, lines);
            && lang.script && StartsWith(LStrip(lines[o].text), "/*") && BlockEnd(lines, o) == Some(k - 1)
            && Preamble(lang, lines, false) == if HasPragma(Joined(lines[o..k], false)) then k else o
  {
  }

  lemma NoBlockAfter(lang: Language, after: seq<Line>, k: nat)
    requires ReadsHeader(lang) && k < |after| && k == Opening(lang, after) && after[k].text == HeaderLine(lang, 0)
    ensures Preamble(lang, after, false) == k
  {
  }

  lemma FindsHeader(lang: Language, after: seq<Line>, k: nat)
    requires ReadsHeader(lang) && k + 2 <= |after|
    requires after[k].text == HeaderLine(lang, 0) && after[k + 1].text == HeaderLine(lang, 1)
    ensures Scan(lang, after[k..]).Some?
  {
    assert after[k..][1..][0] == after[k + 1];
  }

  /** The header just inserted is recognised, exactly unless a docblock hides it. */
  lemma HeaderRecognised(lang: Language, source: Source)
    requires ReadsHeader(lang) && !HasHeader(lang, source)
    ensures HasHeader(lang, Added(lang, source)) <==> !HeaderHidden(lang, source.lines)
  {
    var lines, after := source.lines, WithHeader(lang, source.lines);
    var seen, kept := Preamble(lang, lines, false), Preamble(lang, lines, true);
    HeaderInPlace(lang, lines);
    PreambleAfter(lang, lines);
    FindsHeader(lang, after, kept);
    if seen < kept {
      DocblockScan(lang, lines, after, seen, kept);
    }
  }

  lemma DocblockScan(lang: Language, lines: seq<Line>, after: seq<Line>, seen: nat, kept: nat)
    requires seen < kept <= |lines| && kept <= |after|
    requires Scan(lang, lines[seen..]) == None && Scan(lang, after[kept..]).Some?
    requires forall i | 0 <= i < kept :: after[i].text == lines[i].text
    ensures Scan(lang, after[seen..]).Some? <==> !(exists i | seen <= i < kept :: Code(lang, lines[i]))
  {
    var block, now := lines[seen..], after[seen..];
    assert forall i | 0 <= i < kept - seen :: now[i].text == block[i].text;
    if exists i | seen <= i < kept :: Code(lang, lines[i]) {
      var n := FirstCode(lang, block, kept - seen);
      forall i | 0 <= i < n
        ensures Blank(now[i]) || lang.spdx(Strip(now[i].text)) == None
      {
        NothingFound(lang, block, i);
      }
      ScanStops(lang, now, n);
    } else {
      forall i | 0 <= i < kept - seen
        ensures !Code(lang, block[i])
      {
        assert block[i] == lines[seen + i];
      }
      forall i | 0 <= i < kept - seen
        ensures Blank(now[i]) || (lang.comment(Strip(now[i].text)) && lang.spdx(Strip(now[i].text)) == None)
      {
        NothingFound(lang, block, i);
      }
      ScanPast(lang, now, kept - seen);
      assert now[kept - seen..] == after[kept..];
    }
  }

  lemma {:induction false} FirstCode(lang: Language, block: seq<Line>, m: nat) returns (n: nat)
    requires m <= |block| && exists i | 0 <= i < m :: Code(lang, block[i])
    ensures n < m && Code(lang, block[n]) && forall i | 0 <= i < n :: !Code(lang, block[i])
    decreases m
  {
    if i :| 0 <= i < m - 1 && Code(lang, block[i]) {
      n := FirstCode(lang, block, m - 1);
    } else {
      n := m - 1;
    }
  }

  /** A second run changes nothing, exactly unless the header was missing and is hidden. */
  lemma SecondRunExact(lang: Language, source: Source)
    requires ReadsHeader(lang)
    ensures Added(lang, Added(lang, source)) == Added(lang, source)
            <==> HasHeader(lang, source) || !HeaderHidden(lang, source.lines)
  {
    if !HasHeader(lang, source) {
      HeaderRecognised(lang, source);
      var once := Added(lang, source);
      HeaderGrows(lang, once.lines);
    }
  }

  /** Inserting where the lines already hold the header still changes them. */
  lemma HeaderGrows(lang: Language, lines: seq<Line>)
    requires ReadsHeader(lang)
    ensures WithHeader(lang, lines) != lines
  {
    var k := Preamble(lang, lines, true);
    InsertPlaces(lang, lines[..k], Newline(lines), DropBlank(lines[k..]));
    assert k < |lines| ==> lines[k..][0] == lines[k];
  }

  /** It happens: a docblock whose second line is bare "@flow" holds the pragma only while
      its lines are apart, and "@flow" is no comment line. */
  lemma FlowDocblockHides(lang: Language, block: seq<Line>, below: seq<Line>)
    requires block == [Line("/*", LF), Line("@flow", LF), Line("foo", LF), Line("*/", LF)]
    requires lang.script && !lang.python && !lang.comment("@flow")
    ensures HeaderHidden(lang, block + below)
  {
    var lines := block + below;
    FlowPragma(block);
    FlowBlockEnd(lines);
    assert lines[0..4] == block;
    assert LStrip("/*") == "/*" && StartsWith("/*", "/*") && !StartsWith("/*", "#!");
    assert Opening(lang, lines) == 0;
    BareLine("@flow");
    assert Code(lang, lines[1]);
  }

  lemma FlowBlockEnd(lines: seq<Line>)
    requires |lines| >= 4 && lines[0].text == "/*" && lines[1].text == "@flow"
    requires lines[2].text == "foo" && lines[3].text == "*/"
    ensures BlockEnd(lines, 0) == Some(3)
  {
    assert !EndsBlock("/*") && !EndsBlock("@flow") && !EndsBlock("foo");
    assert "*/"[0] == '*' && "*/"[1] == '/' && EndsBlock(lines[3].text);
    assert BlockEnd(lines, 2) == Some(3) && BlockEnd(lines, 1) == Some(3);
  }

  lemma FlowPragma(block: seq<Line>)
    requires block == [Line("/*", LF), Line("@flow", LF), Line("foo", LF), Line("*/", LF)]
    ensures HasPragma(Joined(block, true)) && !HasPragma(Joined(block, false))
  {
    JoinedFour(block, true);
    JoinedFour(block, false);
    assert Joined(block, true) == "/*\n@flow\nfoo\n*/\n" && Joined(block, false) == "/*@flowfoo*/";
    FlowApart(Joined(block, true));
    FlowTogether(Joined(block, false));
  }

  lemma FlowApart(s: string)
    requires s == "/*\n@flow\nfoo\n*/\n"
    ensures HasPragma(s)
  {
    assert s[3..] == "@flow\nfoo\n*/\n" && s[3..][1..] == "flow\nfoo\n*/\n";
    assert PragmaAt(s[3..]);
  }

  lemma FlowTogether(s: string)
    requires s == "/*@flowfoo*/"
    ensures !HasPragma(s)
  {
    NoPragmaInFoo(s[3..]);
    forall i | 0 <= i < |s|
      ensures !PragmaAt(s[i..])
    {
      hide StartsWith, StartsWithWord;
      assert s[i..][0] == s[i];
      assert i == 2 ==> s[i..][1..] == s[3..];
    }
  }

  lemma NoPragmaInFoo(s: string)
    requires s == "flowfoo*/"
    ensures !StartsWith(s, "jest-") && !StartsWith(s, "jsx") && !StartsWithWord(s, "flow")
            && !StartsWithWord(s, "noflow")
  {
    assert s[0] == 'f' && s[4] == 'f';
    assert "jest-"[0] == 'j' && "jsx"[0] == 'j' && "noflow"[0] == 'n';
    assert forall t: string | StartsWith(s, t) && t != "" :: t[0] == s[0];
  }

  lemma JoinedFour(ls: seq<Line>, ends: bool)
    requires |ls| == 4
    ensures Joined(ls, ends) == Piece(ls[0], ends) + Piece(ls[1], ends) + Piece(ls[2], ends) + Piece(ls[3], ends)
  {
    JoinedLast(ls, ends);
    JoinedLast(ls[..3], ends);
    JoinedLast(ls[..3][..2], ends);
    JoinedLast(ls[..3][..2][..1], ends);
  }

  function Piece(line: Line, ends: bool): string {
    line.text + if ends then EndText(line.end) else ""
  }

  lemma JoinedLast(ls: seq<Line>, ends: bool)
    requires ls != []
    ensures Joined(ls, ends) == Joined(ls[..|ls| - 1], ends) + Piece(ls[|ls| - 1], ends)
  {
  }

  lemma {:induction false} BareLine(s: string)
    requires s != "" && !IsSpace(s[0]) && !IsSpace(s[|s| - 1])
    ensures Strip(s) == s
  {
  }

  // ---------------------------------------------------------------- the encoding line

  /** PEP 263: an encoding line first, or second below a comment or blank line. */
  predicate Declares(lang: Language, lines: seq<Line>) {
    || (|lines| > 0 && lang.encoding(lines[0].text))
    || (|lines| > 1 && lang.encoding(lines[1].text) && !Code(lang, lines[0]))
  }

  /** The header leaves a Python file's encoding declared, exactly when it is on the first line
      or below a shebang; below another comment it is pushed down and no longer counts. */
  lemma EncodingExact(lang: Language, source: Source)
    requires ReadsHeader(lang) && lang.python && !lang.script && !HasHeader(lang, source)
    requires Declares(lang, source.lines)
    ensures Declares(lang, Added(lang, source).lines)
            <==> lang.encoding(source.lines[0].text) || StartsWith(source.lines[0].text, "#!")
  {
    HeaderInPlace(lang, source.lines);
  }

  // ---------------------------------------------------------------- what is kept

  /** Nothing but the header comes in, nothing but blank lines at the insertion goes, and all
      other lines stay in order, with their ends but for an unended last one above. */
  lemma OnlyHeaderAdded(lang: Language, lines: seq<Line>) returns (k: nat, m: nat)
    requires WellFormed(lines)
    ensures k <= m <= |lines| && (forall i | k <= i < m :: Blank(lines[i]))
    ensures m < |lines| ==> !Blank(lines[m]) && (forall i | 0 <= i < k :: !lines[i].end.NoEnd?)
    ensures WithHeader(lang, lines) == Insert(lang, lines[..k], Newline(lines), lines[m..])
    ensures k == Preamble(lang, lines, true)
    ensures var nl, after := Newline(lines), WithHeader(lang, lines);
            && |after| >= k && after[k..] == [Line(lang.prefix + " " + lang.copyright, nl),
                                              Line(lang.prefix + " " + lang.license, nl)]
                                             + (if m < |lines| then [Line("", nl)] + lines[m..] else [])
            && forall i | 0 <= i < k ::
                 after[i] == Line(lines[i].text, if lines[i].end.NoEnd? then nl else lines[i].end)
  {
    k := Preamble(lang, lines, true);
    m := BlanksBelow(lines, k);
    assert DropBlank(lines[k..]) == lines[m..];
    InsertedLines(lang, lines, k, Newline(lines), lines[m..]);
  }

  lemma InsertedLines(lang: Language, lines: seq<Line>, k: nat, nl: End, rest: seq<Line>)
    requires k <= |lines| && forall i | 0 <= i < |lines| - 1 :: !lines[i].end.NoEnd?
    ensures var after := Insert(lang, lines[..k], nl, rest);
            && |after| >= k && after[k..] == [Line(lang.prefix + " " + lang.copyright, nl),
                                              Line(lang.prefix + " " + lang.license, nl)]
                                             + (if rest != [] then [Line("", nl)] + rest else [])
            && forall i | 0 <= i < k ::
                 after[i] == Line(lines[i].text, if lines[i].end.NoEnd? then nl else lines[i].end)
  {
    var top, after := lines[..k], Insert(lang, lines[..k], nl, rest);
    assert |Ended(top, nl)| == k;
    assert after == Ended(top, nl) + (Header(lang, nl) + (if rest != [] then [Line("", nl)] + rest else []));
    forall i | 0 <= i < k
      ensures after[i] == Line(lines[i].text, if lines[i].end.NoEnd? then nl else lines[i].end)
    {
      assert after[i] == Ended(top, nl)[i];
    }
  }

  /** With a header nothing changes; without one only the lines do. */
  lemma HeaderAddedOnce(lang: Language, source: Source)
    ensures HasHeader(lang, source) ==> Added(lang, source) == source
    ensures !HasHeader(lang, source) ==>
              Added(lang, source).bom == source.bom && Added(lang, source).lines == WithHeader(lang, source.lines)
  {
  }

  /** The line end is the one that ends the first line that ends in a newline. */
  lemma {:induction false} NewlineExact(lines: seq<Line>)
    ensures Newline(lines) == CRLF <==>
              exists i | 0 <= i < |lines| :: lines[i].end.CRLF? && NoNewline(lines[..i])
    ensures Newline(lines) == CRLF || Newline(lines) == LF
  {
    if lines != [] {
      NewlineExact(lines[1..]);
      forall i | 0 < i < |lines|
        ensures NoNewline(lines[..i]) <==> !lines[0].end.CRLF? && !lines[0].end.LF? && NoNewline(lines[1..][..i - 1])
      {
        assert lines[..i] == [lines[0]] + lines[1..][..i - 1];
      }
      assert lines[0].end.CRLF? ==> NoNewline(lines[..0]);
      assert forall i | 0 <= i < |lines| - 1 :: lines[1..][i] == lines[i + 1];
      if Newline(lines) == CRLF && !lines[0].end.CRLF? {
        var i :| 0 <= i < |lines[1..]| && lines[1..][i].end.CRLF? && NoNewline(lines[1..][..i]);
        assert lines[i + 1].end.CRLF? && NoNewline(lines[..i + 1]);
      }
    }
  }

  predicate NoNewline(lines: seq<Line>) {
    forall line | line in lines :: !line.end.CRLF? && !line.end.LF?
  }

  lemma BlanksBelow(lines: seq<Line>, k: nat) returns (m: nat)
    requires WellFormed(lines) && k <= |lines|
    ensures k <= m <= |lines| && DropBlank(lines[k..]) == lines[m..] && (forall i | k <= i < m :: Blank(lines[i]))
    ensures m < |lines| ==> !Blank(lines[m]) && (forall i | 0 <= i < k :: !lines[i].end.NoEnd?)
  {
    m := k + Blanks(lines[k..]);
    assert forall i | k <= i < m :: lines[i] == lines[k..][i - k];
    assert m < |lines| ==> lines[m] == lines[k..][m - k];
  }

  lemma {:induction false} NewlineEnds(lines: seq<Line>)
    ensures Newline(lines) == LF || Newline(lines) == CRLF
  {
    if lines != [] {
      NewlineEnds(lines[1..]);
    }
  }

  /** The lines of the result are those its text splits into. */
  lemma StaysWellFormed(lang: Language, lines: seq<Line>)
    requires WellFormed(lines) && lang.prefix != ""
    ensures WellFormed(WithHeader(lang, lines))
  {
    NewlineEnds(lines);
    var k, m := OnlyHeaderAdded(lang, lines);
    TopWellFormed(lines, k, Newline(lines));
    RestWellFormed(lines, m);
    PartsWellFormed(lang, Ended(lines[..k], Newline(lines)), Newline(lines), lines[m..]);
  }

  lemma TopWellFormed(lines: seq<Line>, k: nat, nl: End)
    requires WellFormed(lines) && k <= |lines| && (nl == LF || nl == CRLF)
    ensures WellFormed(Ended(lines[..k], nl))
    ensures forall i | 0 <= i < k :: !Ended(lines[..k], nl)[i].end.NoEnd?
  {
  }

  lemma RestWellFormed(lines: seq<Line>, m: nat)
    requires WellFormed(lines) && m <= |lines|
    ensures WellFormed(lines[m..])
  {
  }

  lemma PartsWellFormed(lang: Language, top: seq<Line>, nl: End, rest: seq<Line>)
    requires WellFormed(top) && (forall i | 0 <= i < |top| :: !top[i].end.NoEnd?)
    requires WellFormed(rest) && (nl == LF || nl == CRLF) && lang.prefix != ""
    ensures WellFormed(top + Header(lang, nl) + (if rest != [] then [Line("", nl)] else []) + rest)
  {
    var middle := Header(lang, nl) + if rest != [] then [Line("", nl)] else [];
    var all := top + middle + rest;
    assert all == top + Header(lang, nl) + (if rest != [] then [Line("", nl)] else []) + rest;
    assert forall i | 0 <= i < |middle| :: middle[i].end == nl;
    assert middle[0].text != "";
    forall i | 0 <= i < |all|
      ensures all[i] == if i < |top| then top[i] else if i < |top| + |middle| then middle[i - |top|]
                        else rest[i - |top| - |middle|]
    {
    }
  }
}
