/**
 The Version History lists of scripts/contract_bumps.py: finding them in a docstring and
 adding an entry. Lines are classified as the source's regular expressions do.
 */
module VersionHistory {
  import opened Common
  import opened ContractBumps

  /** A docstring line: blank; the heading; a list entry "- 1.2" or "- v1.2" behind its
      indentation; or any other text. doubleQuotes and singleQuotes: it holds three quotes. */
  datatype Line =
    | Blank
    | Heading(width: nat)
    | EntryLine(indent: string, prefix: string, version: Version, doubleQuotes: bool, singleQuotes: bool)
    | OtherText(width: nat, doubleQuotes: bool, singleQuotes: bool)

  /** How far the line is indented. */
  function Width(line: Line): nat {
    match line
    case Blank => 0
    case Heading(w) => w
    case EntryLine(indent, _, _, _, _) => |indent|
    case OtherText(w, _, _) => w
  }

  predicate HasDoubleQuotes(line: Line) {
    (line.EntryLine? || line.OtherText?) && line.doubleQuotes
  }

  predicate HasQuotes(line: Line) {
    (line.EntryLine? || line.OtherText?) && (line.doubleQuotes || line.singleQuotes)
  }

  predicate IsEntryAt(line: Line, indent: string) {
    line.EntryLine? && line.indent == indent
  }

  predicate IsDeeper(line: Line, indent: string) {
    !line.Blank? && Width(line) > |indent|
  }

  /** One list: its first entry's line, its last line, and its entries' versions in order. */
  datatype History = History(firstEntry: nat, lastLine: nat, indent: string, prefix: string, versions: seq<Version>)

  // ---------------------------------------------------------------- where a list ends

  /** _list_goes_on: whether the first non-blank line from start is still part of the list. */
  predicate GoesOn(lines: seq<Line>, start: nat, last: nat, indent: string)
    requires last < |lines|
    decreases last + 1 - start
  {
    if start > last then false
    else if lines[start].Blank? then GoesOn(lines, start + 1, last, indent)
    else IsEntryAt(lines[start], indent) || (IsDeeper(lines[start], indent) && !HasDoubleQuotes(lines[start]))
  }

  method ListGoesOn(lines: seq<Line>, start: nat, last: nat, indent: string) returns (r: bool)
    requires last < |lines|
    ensures r == GoesOn(lines, start, last, indent)
  {
    var k := start;
    while k <= last
      invariant GoesOn(lines, start, last, indent) == GoesOn(lines, k, last, indent)
      decreases last + 1 - k
    {
      var line := lines[k];
      if line.Blank? {
        k := k + 1;
        continue;
      }
      if IsEntryAt(line, indent) {
        return true;
      }
      return IsDeeper(line, indent) && !HasDoubleQuotes(line);
    }
    r := false;
  }

  predicate InList(lines: seq<Line>, j: nat, last: nat, indent: string)
    requires j <= last < |lines|
  {
    || IsEntryAt(lines[j], indent)
    || IsDeeper(lines[j], indent)
    || (lines[j].Blank? && GoesOn(lines, j + 1, last, indent))
  }

  /** The first line from j that is not part of the list. */
  function ListEnd(lines: seq<Line>, j: nat, last: nat, indent: string): (e: nat)
    requires last < |lines| && j <= last + 1
    ensures j <= e <= last + 1
    decreases last + 1 - j
  {
    if j > last then j
    else if InList(lines, j, last, indent) then ListEnd(lines, j + 1, last, indent)
    else j
  }

  /** The versions of the entries with the list's own indentation, from line i up to j. */
  function VersionsIn(lines: seq<Line>, i: nat, j: nat, indent: string): seq<Version>
    requires i <= j <= |lines|
    decreases j
  {
    if i == j then []
    else
      var before := VersionsIn(lines, i, j - 1, indent);
      if IsEntryAt(lines[j - 1], indent) then before + [lines[j - 1].version] else before
  }

  /** The list whose heading is line i. */
  function HistoryAt(lines: seq<Line>, i: nat, last: nat): History
    requires i < last < |lines| && lines[i + 1].EntryLine?
  {
    var indent := lines[i + 1].indent;
    var e := ListEnd(lines, i + 1, last, indent);
    History(i + 1, e - 1, indent, lines[i + 1].prefix, VersionsIn(lines, i + 1, e, indent))
  }

  predicate StartsList(lines: seq<Line>, i: nat, last: nat)
    requires i <= last < |lines|
  {
    lines[i].Heading? && i + 1 <= last && lines[i + 1].EntryLine?
  }

  function HistoriesFrom(lines: seq<Line>, i: nat, last: nat): seq<History>
    requires last < |lines| && i <= last + 1
    decreases last + 1 - i
  {
    if i > last then []
    else if !StartsList(lines, i, last) then HistoriesFrom(lines, i + 1, last)
    else [HistoryAt(lines, i, last)] + HistoriesFrom(lines, HistoryAt(lines, i, last).lastLine + 1, last)
  }

  // ---------------------------------------------------------------- the nested loops

  /** _histories */
  method Histories(lines: seq<Line>, first: nat, last: nat) returns (found: seq<History>)
    requires first <= last < |lines|
    ensures found == HistoriesFrom(lines, first, last)
  {
    found := [];
    var i := first;
    while i <= last
      invariant first <= i <= last + 1
      invariant HistoriesFrom(lines, first, last) == found + HistoriesFrom(lines, i, last)
      decreases last + 1 - i
    {
      if !lines[i].Heading? {
        i := i + 1;
        continue;
      }
      var j := i + 1;
      if !(j <= last && lines[j].EntryLine?) {
        i := i + 1;
        continue;
      }
      var indent, prefix := lines[j].indent, lines[j].prefix;
      var versions: seq<Version> := [];
      var end := j;
      while j <= last
        invariant i + 1 <= j <= last + 1
        invariant ListEnd(lines, i + 1, last, indent) == ListEnd(lines, j, last, indent)
        invariant versions == VersionsIn(lines, i + 1, j, indent)
        invariant i + 1 <= end <= j
        invariant j == i + 1 ==> end == i + 1
        invariant j > i + 1 ==> end == j - 1 || (end < j && GoesOn(lines, j, last, indent))
        decreases last + 1 - j
      {
        var line := lines[j];
        if IsEntryAt(line, indent) {
          versions := versions + [line.version];
          end := j;
        } else if IsDeeper(line, indent) {
          end := j;
        } else if line.Blank? {
          var more := ListGoesOn(lines, j + 1, last, indent);
          if !more {
            break;
          }
        } else {
          break;
        }
        j := j + 1;
      }
      assert j == ListEnd(lines, i + 1, last, indent);
      found := found + [History(i + 1, end, indent, prefix, versions)];
      i := j;
    }
  }

  // ---------------------------------------------------------------- newest and order

  /** max(self.versions) */
  function NewestOf(versions: seq<Version>): (r: Version)
    requires versions != []
    ensures r in versions && forall v | v in versions :: NotAbove(v, r)
  {
    var last := versions[|versions| - 1];
    if |versions| == 1 then last
    else
      var front := versions[..|versions| - 1];
      assert forall v | v in versions :: v in front || v == last;
      assert forall v | v in front :: v in versions;
      var rest := NewestOf(front);
      if Below(rest, last) then last else rest
  }

  /** More than one entry and the first above the last: the newest comes first. */
  predicate Descending(versions: seq<Version>) {
    |versions| > 1 && Below(versions[|versions| - 1], versions[0])
  }

  lemma NewestIs(versions: seq<Version>, v: Version)
    requires versions != [] && v in versions && forall u | u in versions :: NotAbove(u, v)
    ensures NewestOf(versions) == v
  {
    assert NotAbove(NewestOf(versions), v) && NotAbove(v, NewestOf(versions));
  }

  // ---------------------------------------------------------------- inserting

  datatype InsertError = NoSuchHistory | EndsOnClosingQuotes

  datatype InsertResult = Inserted(lines: seq<Line>) | Failed(error: InsertError)

  /** The lines _format_entry writes: an entry in the list's own style, then lines indented
      two more. */
  predicate IsBlockFor(block: seq<Line>, h: History, version: Version) {
    && block != []
    && IsEntryAt(block[0], h.indent) && block[0].prefix == h.prefix && block[0].version == version
    && forall k | 1 <= k < |block| :: IsDeeper(block[k], h.indent)
  }

  function InsertPoint(h: History): nat {
    if Descending(h.versions) then h.firstEntry else h.lastLine + 1
  }

  function Insert(lines: seq<Line>, at: nat, block: seq<Line>): seq<Line>
    requires at <= |lines|
  {
    lines[..at] + block + lines[at..]
  }

  /** The first history, in order, whose newest entry is the version. */
  function FindHistory(hs: seq<History>, want: Version): (r: Option<nat>)
    requires forall h | h in hs :: h.versions != []
    ensures r.Some? ==> r.value < |hs|
  {
    if hs == [] then None
    else if NewestOf(hs[0].versions) == want then Some(0)
    else
      match FindHistory(hs[1..], want)
      case None => None
      case Some(k) => Some(k + 1)
  }

  /** A docstring's first and last line. */
  datatype Span = Span(first: nat, last: nat)

  predicate SpansIn(lines: seq<Line>, owners: seq<Option<Span>>) {
    forall o | o in owners && o.Some? :: o.value.first <= o.value.last < |lines|
  }

  function Parsed(lines: seq<Line>, span: Span): (hs: seq<History>)
    requires span.first <= span.last < |lines|
    ensures forall h | h in hs :: h.versions != [] && h.firstEntry <= h.lastLine <= span.last
  {
    HistoriesAreLists(lines, span.first, span.last);
    HistoriesFrom(lines, span.first, span.last)
  }

  /** The first docstring, of the class and then the module, with a history whose newest entry
      is the version, and that history. */
  function FindOwner(lines: seq<Line>, owners: seq<Option<Span>>, want: Version): (r: Option<(Span, nat)>)
    requires SpansIn(lines, owners)
    ensures r.Some? ==> Some(r.value.0) in owners && r.value.1 < |Parsed(lines, r.value.0)|
  {
    if owners == [] then None
    else
      assert forall o | o in owners[1..] :: o in owners;
      var rest := FindOwner(lines, owners[1..], want);
      if owners[0].None? then rest
      else
        match FindHistory(Parsed(lines, owners[0].value), want)
        case Some(k) => Some((owners[0].value, k))
        case None => rest
  }

  /** What insert_history_entry does with the k-th history of a docstring. */
  function InsertedAt(lines: seq<Line>, h: History, entry: seq<Line>): InsertResult
    requires h.firstEntry <= h.lastLine < |lines|
  {
    if HasQuotes(lines[h.lastLine]) then Failed(EndsOnClosingQuotes)
    else Inserted(Insert(lines, InsertPoint(h), entry))
  }

  /** insert_history_entry: the entry goes next to current's, in the first docstring that has
      it, at the end the list grows at. An owner without a docstring is None. */
  method InsertHistoryEntry(lines: seq<Line>, owners: seq<Option<Span>>, current: Version, version: Version,
                            format: (History, Version) -> seq<Line>)
    returns (result: InsertResult)
    requires SpansIn(lines, owners)
    ensures match FindOwner(lines, owners, current)
            case None => result == Failed(NoSuchHistory)
            case Some((span, k)) =>
              var h := Parsed(lines, span)[k];
              result == InsertedAt(lines, h, format(h, version))
  {
    for i := 0 to |owners|
      invariant FindOwner(lines, owners, current) == FindOwner(lines, owners[i..], current)
    {
      assert owners[i..][0] == owners[i] && owners[i..][1..] == owners[i + 1..];
      if owners[i].None? {
        continue;
      }
      var found: bool;
      found, result := InsertInDocstring(lines, owners[i].value, current, version, format);
      if found {
        return;
      }
    }
    result := Failed(NoSuchHistory);
  }

  /** The inner loop, over one docstring's histories. */
  method InsertInDocstring(lines: seq<Line>, span: Span, current: Version, version: Version,
                           format: (History, Version) -> seq<Line>)
    returns (found: bool, result: InsertResult)
    requires span.first <= span.last < |lines|
    ensures match FindHistory(Parsed(lines, span), current)
            case None => !found
            case Some(k) =>
              var h := Parsed(lines, span)[k];
              found && result == InsertedAt(lines, h, format(h, version))
  {
    var hs := Histories(lines, span.first, span.last);
    assert hs == Parsed(lines, span);
    for k := 0 to |hs|
      invariant FindHistory(hs, current) ==
                match FindHistory(hs[k..], current) case None => None case Some(i) => Some(k + i)
    {
      var h := hs[k];
      assert hs[k..][0] == h && hs[k..][1..] == hs[k + 1..];
      assert h in hs;
      if NewestOf(h.versions) != current {
        continue;
      }
      if HasQuotes(lines[h.lastLine]) {
        return true, Failed(EndsOnClosingQuotes);
      }
      var entry := format(h, version);
      var at := if Descending(h.versions) then h.firstEntry else h.lastLine + 1;
      return true, Inserted(lines[..at] + entry + lines[at..]);
    }
    found, result := false, Failed(NoSuchHistory);
  }

  // ---------------------------------------------------------------- what a parsed list is

  lemma {:induction false} HistoriesAreLists(lines: seq<Line>, i: nat, last: nat)
    requires last < |lines| && i <= last + 1
    ensures forall h | h in HistoriesFrom(lines, i, last) ::
              h.versions != [] && i < h.firstEntry <= h.lastLine <= last
    decreases last + 1 - i
  {
    if i <= last {
      if StartsList(lines, i, last) {
        var h := HistoryAt(lines, i, last);
        HistoryIsList(lines, i, last);
        HistoriesAreLists(lines, h.lastLine + 1, last);
      } else {
        HistoriesAreLists(lines, i + 1, last);
      }
    }
  }

  lemma HistoryIsList(lines: seq<Line>, i: nat, last: nat)
    requires i <= last < |lines| && StartsList(lines, i, last)
    ensures var h := HistoryAt(lines, i, last);
            h.versions != [] && h.firstEntry == i + 1 <= h.lastLine <= last
            && h.lastLine + 1 == ListEnd(lines, i + 1, last, h.indent)
  {
    var indent := lines[i + 1].indent;
    var e := ListEnd(lines, i + 1, last, indent);
    assert e == ListEnd(lines, i + 2, last, indent);
    VersionsGrow(lines, i + 1, i + 2, e, indent);
    assert VersionsIn(lines, i + 1, i + 2, indent) == [lines[i + 1].version];
  }

  lemma {:induction false} VersionsGrow(lines: seq<Line>, i: nat, j: nat, k: nat, indent: string)
    requires i <= j <= k <= |lines|
    ensures VersionsIn(lines, i, k, indent) == VersionsIn(lines, i, j, indent) + VersionsIn(lines, j, k, indent)
    decreases k
  {
    if j < k {
      VersionsGrow(lines, i, j, k - 1, indent);
    } else {
      assert VersionsIn(lines, i, j, indent) + [] == VersionsIn(lines, i, j, indent);
    }
  }
}
