/**
 What the parser finds, said of the lines: which lines make up a list, and that a list of
 histories is the parse of a docstring exactly if it has every list there, in order. Nothing
 here looks for where a list ends.
 */
module VersionHistoryLines {
  import opened Common
  import opened ContractBumps
  import opened VersionHistory
  import opened VersionHistoryReparse

  // ---------------------------------------------------------------- lines of a list

  /** An entry of the list, or a line indented deeper than its entries. */
  predicate Continues(line: Line, indent: string) {
    IsEntryAt(line, indent) || IsDeeper(line, indent)
  }

  /** What takes a list up again after blank lines: such a line, but no deeper one with
      double quotes, which may close the docstring. */
  predicate Resumes(line: Line, indent: string) {
    IsEntryAt(line, indent) || (IsDeeper(line, indent) && !HasDoubleQuotes(line))
  }

  predicate ResumesAt(lines: seq<Line>, k: nat, m: nat, indent: string)
    requires k <= m < |lines|
  {
    Resumes(lines[m], indent) && forall b | k <= b < m :: lines[b].Blank?
  }

  /** Line k is in a list that ends before line e: it continues it, or is blank and the list is
      taken up again below. */
  predicate Inside(lines: seq<Line>, k: nat, e: nat, indent: string)
    requires k < e <= |lines|
  {
    || Continues(lines[k], indent)
    || (lines[k].Blank? && exists m | k < m < e :: ResumesAt(lines, k, m, indent))
  }

  predicate AllInside(lines: seq<Line>, i: nat, e: nat, indent: string)
    requires e <= |lines|
  {
    forall k | i <= k < e :: Inside(lines, k, e, indent)
  }

  /** A list cannot go on at line n: there is none, or it neither continues the list nor is
      blank before a line that takes it up again. */
  predicate CannotGoOn(lines: seq<Line>, n: nat, last: nat, indent: string)
    requires last < |lines|
  {
    n <= last ==>
      && !Continues(lines[n], indent)
      && (lines[n].Blank? ==> forall m | n < m <= last :: !ResumesAt(lines, n, m, indent))
  }

  /** The versions of the lines that are entries with the indentation, top down. */
  function EntryVersions(lines: seq<Line>, indent: string): seq<Version> {
    if lines == [] then []
    else
      (if lines[0].EntryLine? && lines[0].indent == indent then [lines[0].version] else [])
      + EntryVersions(lines[1..], indent)
  }

  /** The history is what its lines make it: a heading above its first entry, that entry's
      indentation and prefix, lines that all belong to it, as many as can, and its entries'
      versions. */
  predicate IsHistory(lines: seq<Line>, last: nat, h: History)
    requires last < |lines|
  {
    && 0 < h.firstEntry <= h.lastLine <= last
    && lines[h.firstEntry - 1].Heading?
    && lines[h.firstEntry].EntryLine?
    && lines[h.firstEntry].indent == h.indent && lines[h.firstEntry].prefix == h.prefix
    && AllInside(lines, h.firstEntry, h.lastLine + 1, h.indent)
    && CannotGoOn(lines, h.lastLine + 1, last, h.indent)
    && h.versions == EntryVersions(lines[h.firstEntry..h.lastLine + 1], h.indent)
  }

  /** A heading with an entry right below it. */
  predicate Heads(lines: seq<Line>, n: nat, last: nat)
    requires last < |lines|
  {
    n < last && lines[n].Heading? && lines[n + 1].EntryLine?
  }

  /** Each list ends above the next one's heading. */
  predicate InOrder(hs: seq<History>) {
    forall a, b | 0 <= a < b < |hs| :: hs[a].lastLine < hs[b].firstEntry - 1
  }

  /** The histories are those of lines i to last: each is one, they come in order and apart,
      and every heading followed by an entry starts one or lies inside one. */
  ghost predicate IsParse(lines: seq<Line>, i: nat, last: nat, hs: seq<History>)
    requires last < |lines|
  {
    && (forall h | h in hs :: i < h.firstEntry && IsHistory(lines, last, h))
    && InOrder(hs)
    && (forall n: nat | i <= n && Heads(lines, n, last) ::
          exists h | h in hs :: h.firstEntry - 1 <= n <= h.lastLine)
  }

  // ---------------------------------------------------------------- the lookahead

  /** A blank line is looked past. */
  lemma PastBlank(lines: seq<Line>, k: nat, m: nat, indent: string)
    requires k < m < |lines| && lines[k].Blank?
    ensures ResumesAt(lines, k, m, indent) <==> ResumesAt(lines, k + 1, m, indent)
  {
  }

  ghost predicate ResumesBy(lines: seq<Line>, k: nat, last: nat, indent: string)
    requires last < |lines|
  {
    exists m | k <= m <= last :: ResumesAt(lines, k, m, indent)
  }

  lemma ResumesPastBlank(lines: seq<Line>, k: nat, last: nat, indent: string)
    requires k <= last < |lines| && lines[k].Blank?
    ensures ResumesBy(lines, k, last, indent) <==> ResumesBy(lines, k + 1, last, indent)
    ensures ResumesBy(lines, k, last, indent) <==> exists m | k < m <= last :: ResumesAt(lines, k, m, indent)
  {
    assert !Resumes(lines[k], indent);
    if ResumesBy(lines, k, last, indent) {
      var m :| k <= m <= last && ResumesAt(lines, k, m, indent);
      PastBlank(lines, k, m, indent);
    }
    if ResumesBy(lines, k + 1, last, indent) {
      var m :| k + 1 <= m <= last && ResumesAt(lines, k + 1, m, indent);
      PastBlank(lines, k, m, indent);
    }
  }

  lemma {:induction false} GoesOnMeaning(lines: seq<Line>, start: nat, last: nat, indent: string)
    requires last < |lines|
    ensures GoesOn(lines, start, last, indent) <==> ResumesBy(lines, start, last, indent)
    decreases last + 1 - start
  {
    if start <= last {
      if lines[start].Blank? {
        GoesOnMeaning(lines, start + 1, last, indent);
        ResumesPastBlank(lines, start, last, indent);
      } else {
        assert ResumesAt(lines, start, start, indent) <==> GoesOn(lines, start, last, indent);
      }
    }
  }

  lemma InListMeaning(lines: seq<Line>, j: nat, last: nat, indent: string)
    requires j <= last < |lines|
    ensures InList(lines, j, last, indent) <==> Inside(lines, j, last + 1, indent)
    ensures InList(lines, j, last, indent) <==> !CannotGoOn(lines, j, last, indent)
  {
    GoesOnMeaning(lines, j + 1, last, indent);
    if lines[j].Blank? {
      ResumesPastBlank(lines, j, last, indent);
    }
  }

  /** A line that takes the list up again is in it. */
  lemma {:induction false} ReachesResumption(lines: seq<Line>, j: nat, m: nat, last: nat, indent: string)
    requires j <= m <= last < |lines| && ResumesAt(lines, j, m, indent)
    ensures m < ListEnd(lines, j, last, indent)
    decreases m - j
  {
    if j < m {
      assert ResumesAt(lines, j + 1, m, indent);
      GoesOnMeaning(lines, j + 1, last, indent);
      ReachesResumption(lines, j + 1, m, last, indent);
    }
  }

  /** Where the parser ends a list, every line before belongs to it and it cannot go on. */
  lemma {:induction false} EndMeaning(lines: seq<Line>, j: nat, last: nat, indent: string)
    requires last < |lines| && j <= last + 1
    ensures var e := ListEnd(lines, j, last, indent);
            && AllInside(lines, j, e, indent)
            && CannotGoOn(lines, e, last, indent)
    decreases last + 1 - j
  {
    if j <= last {
      InListMeaning(lines, j, last, indent);
      if InList(lines, j, last, indent) {
        EndMeaning(lines, j + 1, last, indent);
        if !Continues(lines[j], indent) {
          var m :| j < m <= last && ResumesAt(lines, j, m, indent);
          ReachesResumption(lines, j, m, last, indent);
        }
      }
    }
  }

  /** And there is only one such place. */
  lemma {:induction false} EndUnique(lines: seq<Line>, j: nat, e: nat, last: nat, indent: string)
    requires last < |lines| && j <= e <= last + 1
    requires AllInside(lines, j, e, indent)
    requires CannotGoOn(lines, e, last, indent)
    ensures ListEnd(lines, j, last, indent) == e
    decreases e - j
  {
    if j <= last {
      InListMeaning(lines, j, last, indent);
      if j < e {
        assert Inside(lines, j, e, indent);
        assert Inside(lines, j, last + 1, indent);
        EndUnique(lines, j + 1, e, last, indent);
      }
    }
  }

  lemma {:induction false} VersionsAreEntries(lines: seq<Line>, i: nat, j: nat, indent: string)
    requires i <= j <= |lines|
    ensures VersionsIn(lines, i, j, indent) == EntryVersions(lines[i..j], indent)
    decreases j - i
  {
    if i < j {
      VersionsAreEntries(lines, i + 1, j, indent);
      VersionsGrow(lines, i, i + 1, j, indent);
      assert lines[i..j][1..] == lines[i + 1..j];
      assert VersionsIn(lines, i, i, indent) == [];
    }
  }

  // ---------------------------------------------------------------- one list

  lemma HistoryMeaning(lines: seq<Line>, i: nat, last: nat)
    requires i <= last < |lines| && StartsList(lines, i, last)
    ensures IsHistory(lines, last, HistoryAt(lines, i, last))
  {
    var h := HistoryAt(lines, i, last);
    HistoryIsList(lines, i, last);
    EndMeaning(lines, i + 1, last, h.indent);
    VersionsAreEntries(lines, i + 1, h.lastLine + 1, h.indent);
  }

  lemma HistoryUnique(lines: seq<Line>, last: nat, h: History)
    requires last < |lines| && IsHistory(lines, last, h)
    ensures StartsList(lines, h.firstEntry - 1, last) && h == HistoryAt(lines, h.firstEntry - 1, last)
  {
    EndUnique(lines, h.firstEntry, h.lastLine + 1, last, h.indent);
    VersionsAreEntries(lines, h.firstEntry, h.lastLine + 1, h.indent);
  }

  // ---------------------------------------------------------------- all lists

  lemma NoListHere(lines: seq<Line>, i: nat, last: nat, hs: seq<History>)
    requires i <= last < |lines| && !StartsList(lines, i, last)
    ensures IsParse(lines, i, last, hs) <==> IsParse(lines, i + 1, last, hs)
  {
    hide IsHistory;
    if IsParse(lines, i, last, hs) {
      forall h | h in hs
        ensures i + 1 < h.firstEntry
      {
        HistoryUnique(lines, last, h);
      }
    }
  }

  /** A history put before a parse of the lines below it. */
  lemma ListPut(lines: seq<Line>, i: nat, last: nat, h: History, rest: seq<History>)
    requires last < |lines| && h.firstEntry == i + 1 && IsHistory(lines, last, h)
    requires IsParse(lines, h.lastLine + 1, last, rest)
    ensures IsParse(lines, i, last, [h] + rest)
  {
    assert h.firstEntry <= h.lastLine;
    hide IsHistory, Heads;
    var hs := [h] + rest;
    forall g | g in hs
      ensures i < g.firstEntry && IsHistory(lines, last, g)
    {
      assert g == h || g in rest;
    }
    FrontAbove(h, rest);
    forall n: nat | i <= n && Heads(lines, n, last)
      ensures exists g | g in hs :: g.firstEntry - 1 <= n <= g.lastLine
    {
      assert h in hs;
      if n > h.lastLine {
        var g :| g in rest && g.firstEntry - 1 <= n <= g.lastLine;
        assert g in hs;
      }
    }
  }

  lemma FrontAbove(h: History, rest: seq<History>)
    requires InOrder(rest) && forall g | g in rest :: h.lastLine + 1 < g.firstEntry
    ensures InOrder([h] + rest)
  {
    var hs := [h] + rest;
    forall a, b | 0 <= a < b < |hs|
      ensures hs[a].lastLine < hs[b].firstEntry - 1
    {
      assert hs[b] == rest[b - 1] && rest[b - 1] in rest;
      assert a > 0 ==> hs[a] == rest[a - 1];
    }
  }

  /** And taken off. */
  lemma ListCut(lines: seq<Line>, i: nat, last: nat, hs: seq<History>)
    requires last < |lines| && hs != [] && IsParse(lines, i, last, hs)
    ensures i <= hs[0].lastLine + 1 && IsParse(lines, hs[0].lastLine + 1, last, hs[1..])
  {
    var h, rest := hs[0], hs[1..];
    assert h in hs && IsHistory(lines, last, h) && h.firstEntry <= h.lastLine;
    hide IsHistory, Heads;
    RestBelow(hs);
    assert forall g | g in rest :: g in hs;
    forall n: nat | h.lastLine + 1 <= n && Heads(lines, n, last)
      ensures exists g | g in rest :: g.firstEntry - 1 <= n <= g.lastLine
    {
      var g :| g in hs && g.firstEntry - 1 <= n <= g.lastLine;
      assert g in rest;
    }
  }

  lemma RestBelow(hs: seq<History>)
    requires hs != [] && InOrder(hs)
    ensures InOrder(hs[1..]) && forall g | g in hs[1..] :: hs[0].lastLine + 1 < g.firstEntry
  {
    var rest := hs[1..];
    forall g | g in rest
      ensures hs[0].lastLine + 1 < g.firstEntry
    {
      var d :| 0 <= d < |rest| && rest[d] == g;
      assert hs[d + 1] == g;
    }
    forall a, b | 0 <= a < b < |rest|
      ensures rest[a].lastLine < rest[b].firstEntry - 1
    {
      assert rest[a] == hs[a + 1] && rest[b] == hs[b + 1];
    }
  }

  /** A parse from a list's heading starts at that heading. */
  lemma ListFirst(lines: seq<Line>, i: nat, last: nat, hs: seq<History>)
    requires i <= last < |lines| && Heads(lines, i, last) && IsParse(lines, i, last, hs)
    ensures hs != [] && hs[0].firstEntry == i + 1 && IsHistory(lines, last, hs[0])
  {
    var h :| h in hs && h.firstEntry - 1 <= i <= h.lastLine;
    var c :| 0 <= c < |hs| && hs[c] == h;
    assert hs[0] in hs && IsHistory(lines, last, hs[0]) && hs[0].firstEntry <= hs[0].lastLine;
    hide IsHistory;
    assert forall b | 0 < b < |hs| :: hs[0].lastLine < hs[b].firstEntry - 1;
  }

  lemma {:induction false} ParsesItself(lines: seq<Line>, i: nat, last: nat)
    requires last < |lines| && i <= last + 1
    ensures IsParse(lines, i, last, HistoriesFrom(lines, i, last))
    decreases last + 1 - i
  {
    hide IsParse;
    if i > last {
      NothingToParse(lines, i, last, []);
    } else if StartsList(lines, i, last) {
      var h := HistoryAt(lines, i, last);
      HistoryIsList(lines, i, last);
      HistoryMeaning(lines, i, last);
      ParsesItself(lines, h.lastLine + 1, last);
      ListPut(lines, i, last, h, HistoriesFrom(lines, h.lastLine + 1, last));
    } else {
      ParsesItself(lines, i + 1, last);
      NoListHere(lines, i, last, HistoriesFrom(lines, i + 1, last));
    }
  }

  lemma NothingToParse(lines: seq<Line>, i: nat, last: nat, hs: seq<History>)
    requires last < i && last < |lines|
    ensures IsParse(lines, i, last, hs) <==> hs == []
  {
    if hs != [] {
      assert hs[0] in hs;
    }
  }

  lemma {:induction false} OneParse(lines: seq<Line>, i: nat, last: nat, hs: seq<History>)
    requires last < |lines| && i <= last + 1 && IsParse(lines, i, last, hs)
    ensures hs == HistoriesFrom(lines, i, last)
    decreases last + 1 - i
  {
    hide IsParse;
    if i > last {
      NothingToParse(lines, i, last, hs);
    } else if StartsList(lines, i, last) {
      ListFirst(lines, i, last, hs);
      ListCut(lines, i, last, hs);
      var h := HistoryAt(lines, i, last);
      HistoryUnique(lines, last, hs[0]);
      HistoryIsList(lines, i, last);
      OneParse(lines, h.lastLine + 1, last, hs[1..]);
      assert hs == [h] + hs[1..];
    } else {
      NoListHere(lines, i, last, hs);
      OneParse(lines, i + 1, last, hs);
    }
  }

  /** The parser finds the one list of histories that the lines make up. */
  lemma ParseExact(lines: seq<Line>, first: nat, last: nat, hs: seq<History>)
    requires last < |lines| && first <= last + 1
    ensures hs == HistoriesFrom(lines, first, last) <==> IsParse(lines, first, last, hs)
  {
    hide IsParse;
    ParsesItself(lines, first, last);
    if IsParse(lines, first, last, hs) {
      OneParse(lines, first, last, hs);
    }
  }

  // ---------------------------------------------------------------- the entry that is added

  /** The new entry is written as the list's first one is. */
  lemma StyleKept(lines: seq<Line>, first: nat, last: nat, h: History, block: seq<Line>, version: Version)
    requires last < |lines| && first <= last + 1 && h in HistoriesFrom(lines, first, last)
    requires IsBlockFor(block, h, version)
    ensures h.firstEntry < |lines| && lines[h.firstEntry].EntryLine?
    ensures block[0] == lines[h.firstEntry].(version := version, doubleQuotes := block[0].doubleQuotes,
                                             singleQuotes := block[0].singleQuotes)
  {
    ParsesItself(lines, first, last);
    assert IsHistory(lines, last, h);
  }

  /** Some list of the docstring has the version as its newest. */
  predicate HasNewest(lines: seq<Line>, span: Span, want: Version)
    requires span.first <= span.last < |lines|
  {
    exists k | 0 <= k < |Parsed(lines, span)| :: NewestOf(Parsed(lines, span)[k].versions) == want
  }

  lemma HasNewestFound(lines: seq<Line>, span: Span, want: Version)
    requires span.first <= span.last < |lines|
    ensures match FindHistory(Parsed(lines, span), want)
            case None => !HasNewest(lines, span, want)
            case Some(k) =>
              && NewestOf(Parsed(lines, span)[k].versions) == want
              && forall j | 0 <= j < k :: NewestOf(Parsed(lines, span)[j].versions) != want
    ensures HasNewest(lines, span, want) <==> FindHistory(Parsed(lines, span), want).Some?
  {
    FoundIsNewest(Parsed(lines, span), want);
  }

  predicate NoneHas(lines: seq<Line>, owners: seq<Option<Span>>, want: Version) {
    forall o | o in owners && o.Some? ::
      o.value.first <= o.value.last < |lines| && !HasNewest(lines, o.value, want)
  }

  /** The c-th owner's docstring is this one, and no earlier one has the version as newest. */
  predicate IsFirstOwner(lines: seq<Line>, owners: seq<Option<Span>>, c: nat, span: Span, want: Version) {
    c < |owners| && owners[c] == Some(span) && NoneHas(lines, owners[..c], want)
  }

  lemma LaterOwner(lines: seq<Line>, owners: seq<Option<Span>>, c: nat, span: Span, want: Version)
    requires owners != [] && IsFirstOwner(lines, owners[1..], c, span, want)
    requires NoneHas(lines, [owners[0]], want)
    ensures IsFirstOwner(lines, owners, c + 1, span, want)
  {
    hide HasNewest;
    assert owners[0] in [owners[0]];
    assert owners[..c + 1] == [owners[0]] + owners[1..][..c];
  }

  /** The entry goes to the first docstring, in the owners' order, that has a list whose newest
      is current, and there to the first such list; it is refused exactly when there is none. */
  lemma {:induction false} OwnerExact(lines: seq<Line>, owners: seq<Option<Span>>, want: Version)
    requires SpansIn(lines, owners)
    ensures match FindOwner(lines, owners, want)
            case None => NoneHas(lines, owners, want)
            case Some((span, k)) =>
              && NewestOf(Parsed(lines, span)[k].versions) == want
              && (forall j | 0 <= j < k :: NewestOf(Parsed(lines, span)[j].versions) != want)
              && exists c: nat :: IsFirstOwner(lines, owners, c, span, want)
    decreases |owners|
  {
    if owners != [] {
      assert forall o | o in owners :: o == owners[0] || o in owners[1..];
      assert forall o | o in owners[1..] :: o in owners;
      OwnerExact(lines, owners[1..], want);
      if owners[0].Some? {
        HasNewestFound(lines, owners[0].value, want);
      }
      hide HasNewest, FindHistory, NewestOf;
      if owners[0].Some? && HasNewest(lines, owners[0].value, want) {
        assert IsFirstOwner(lines, owners, 0, owners[0].value, want);
      } else if FindOwner(lines, owners[1..], want).Some? {
        var span := FindOwner(lines, owners[1..], want).value.0;
        var c: nat :| IsFirstOwner(lines, owners[1..], c, span, want);
        LaterOwner(lines, owners, c, span, want);
      }
    }
  }

  /** What comes of it, said of the lines: refused where a line with three quotes ends the list,
      else the block right above the first entry of a list that has its newest first, or right
      below the last line of any other. */
  lemma InsertOutcome(lines: seq<Line>, h: History, block: seq<Line>)
    requires 0 < |h.versions| && h.firstEntry <= h.lastLine < |lines|
    ensures var end := lines[h.lastLine];
            var quoted := (end.EntryLine? || end.OtherText?) && (end.doubleQuotes || end.singleQuotes);
            var newestFirst := |h.versions| > 1 && Below(h.versions[|h.versions| - 1], h.versions[0]);
            InsertedAt(lines, h, block)
            == if quoted then Failed(EndsOnClosingQuotes)
               else if newestFirst then Inserted(lines[..h.firstEntry] + block + lines[h.firstEntry..])
               else Inserted(lines[..h.lastLine + 1] + block + lines[h.lastLine + 1..])
  {
  }
}
