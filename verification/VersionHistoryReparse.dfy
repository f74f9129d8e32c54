/** Adding an entry and parsing again: the same lists, that one a version longer. */
module VersionHistoryReparse {
  import opened Common
  import opened ContractBumps
  import opened VersionHistory

  // ---------------------------------------------------------------- parsing sees only so far

  /** From any line up to a non-blank one, lookahead stops there. */
  lemma {:induction false} GoesOnLocal(a: seq<Line>, la: nat, b: seq<Line>, lb: nat, start: nat, stop: nat,
                                       indent: string)
    requires la < |a| && lb < |b| && start <= stop <= la && stop <= lb
    requires a[..stop + 1] == b[..stop + 1] && !a[stop].Blank?
    ensures GoesOn(a, start, la, indent) == GoesOn(b, start, lb, indent)
    decreases stop - start
  {
    assert a[start] == a[..stop + 1][start] == b[start];
    if start < stop {
      GoesOnLocal(a, la, b, lb, start + 1, stop, indent);
    }
  }

  /** A list that ends before or at a non-blank line ends there whatever follows it. */
  lemma {:induction false} ListEndLocal(a: seq<Line>, la: nat, b: seq<Line>, lb: nat, j: nat, stop: nat, indent: string)
    requires la < |a| && lb < |b| && j <= stop <= la && stop <= lb
    requires a[..stop + 1] == b[..stop + 1] && !a[stop].Blank?
    requires ListEnd(a, j, la, indent) <= stop
    ensures ListEnd(b, j, lb, indent) == ListEnd(a, j, la, indent)
    decreases stop - j
  {
    assert a[j] == a[..stop + 1][j] == b[j];
    if j < stop {
      GoesOnLocal(a, la, b, lb, j + 1, stop, indent);
      if InList(a, j, la, indent) {
        ListEndLocal(a, la, b, lb, j + 1, stop, indent);
      }
    }
  }

  lemma {:induction false} VersionsLocal(a: seq<Line>, b: seq<Line>, i: nat, j: nat, n: nat, indent: string)
    requires i <= j <= n <= |a| && n <= |b| && a[..n] == b[..n]
    ensures VersionsIn(a, i, j, indent) == VersionsIn(b, i, j, indent)
    decreases j
  {
    if i < j {
      assert a[j - 1] == a[..n][j - 1] == b[j - 1];
      VersionsLocal(a, b, i, j - 1, n, indent);
    }
  }

  // ---------------------------------------------------------------- parsing is shift-invariant

  /** From line at on, b is a moved down by m. */
  predicate Moved(a: seq<Line>, la: nat, b: seq<Line>, lb: nat, at: nat, m: nat) {
    && la < |a| && lb == la + m < |b| && at <= la + 1
    && forall i | at <= i <= la :: b[i + m] == a[i]
  }

  lemma {:induction false} GoesOnMoved(a: seq<Line>, la: nat, b: seq<Line>, lb: nat, at: nat, m: nat,
                                       start: nat, indent: string)
    requires Moved(a, la, b, lb, at, m) && at <= start
    ensures GoesOn(b, start + m, lb, indent) == GoesOn(a, start, la, indent)
    decreases la + 1 - start
  {
    if start <= la && a[start].Blank? {
      GoesOnMoved(a, la, b, lb, at, m, start + 1, indent);
    }
  }

  lemma {:induction false} ListEndMoved(a: seq<Line>, la: nat, b: seq<Line>, lb: nat, at: nat, m: nat, j: nat,
                                        indent: string)
    requires Moved(a, la, b, lb, at, m) && at <= j <= la + 1
    ensures ListEnd(b, j + m, lb, indent) == ListEnd(a, j, la, indent) + m
    decreases la + 1 - j
  {
    if j <= la {
      GoesOnMoved(a, la, b, lb, at, m, j + 1, indent);
      if InList(a, j, la, indent) {
        ListEndMoved(a, la, b, lb, at, m, j + 1, indent);
      }
    }
  }

  lemma {:induction false} VersionsMoved(a: seq<Line>, la: nat, b: seq<Line>, lb: nat, at: nat, m: nat, i: nat,
                                         j: nat, indent: string)
    requires Moved(a, la, b, lb, at, m) && at <= i <= j <= la + 1
    ensures VersionsIn(b, i + m, j + m, indent) == VersionsIn(a, i, j, indent)
    decreases j
  {
    if i < j {
      VersionsMoved(a, la, b, lb, at, m, i, j - 1, indent);
      assert b[j - 1 + m] == a[j - 1];
    }
  }

  function MoveDown(h: History, m: nat): History {
    h.(firstEntry := h.firstEntry + m, lastLine := h.lastLine + m)
  }

  function MoveAll(hs: seq<History>, m: nat): seq<History> {
    seq(|hs|, i requires 0 <= i < |hs| => MoveDown(hs[i], m))
  }

  lemma StartsMoved(a: seq<Line>, la: nat, b: seq<Line>, lb: nat, at: nat, m: nat, i: nat)
    requires Moved(a, la, b, lb, at, m) && at <= i <= la
    ensures StartsList(b, i + m, lb) == StartsList(a, i, la)
  {
    assert b[i + m] == a[i];
    assert i + 1 <= la ==> b[i + 1 + m] == a[i + 1];
  }

  lemma {:induction false} HistoriesMoved(a: seq<Line>, la: nat, b: seq<Line>, lb: nat, at: nat, m: nat, i: nat)
    requires Moved(a, la, b, lb, at, m) && at <= i <= la + 1
    ensures HistoriesFrom(b, i + m, lb) == MoveAll(HistoriesFrom(a, i, la), m)
    decreases la + 1 - i, 1
  {
    if i <= la {
      StartsMoved(a, la, b, lb, at, m, i);
      if StartsList(a, i, la) {
        ListMoved(a, la, b, lb, at, m, i);
      } else {
        HistoriesMoved(a, la, b, lb, at, m, i + 1);
      }
    }
  }

  lemma {:induction false} ListMoved(a: seq<Line>, la: nat, b: seq<Line>, lb: nat, at: nat, m: nat, i: nat)
    requires Moved(a, la, b, lb, at, m) && at <= i <= la && StartsList(a, i, la) && StartsList(b, i + m, lb)
    ensures HistoriesFrom(b, i + m, lb) == MoveAll(HistoriesFrom(a, i, la), m)
    decreases la + 1 - i, 0
  {
    var h := HistoryAt(a, i, la);
    HistoryMoved(a, la, b, lb, at, m, i);
    HistoryIsList(a, i, la);
    hide HistoryAt, StartsList;
    HistoriesMoved(a, la, b, lb, at, m, h.lastLine + 1);
    var rest := HistoriesFrom(a, h.lastLine + 1, la);
    assert HistoriesFrom(a, i, la) == [h] + rest;
    assert MoveAll([h] + rest, m) == [MoveDown(h, m)] + MoveAll(rest, m);
  }

  lemma HistoryMoved(a: seq<Line>, la: nat, b: seq<Line>, lb: nat, at: nat, m: nat, i: nat)
    requires Moved(a, la, b, lb, at, m) && at <= i <= la && StartsList(a, i, la)
    ensures StartsList(b, i + m, lb) && HistoryAt(b, i + m, lb) == MoveDown(HistoryAt(a, i, la), m)
  {
    assert b[i + m] == a[i] && b[i + 1 + m] == a[i + 1];
    var indent := a[i + 1].indent;
    HistoryIsList(a, i, la);
    ListEndMoved(a, la, b, lb, at, m, i + 1, indent);
    VersionsMoved(a, la, b, lb, at, m, i + 1, ListEnd(a, i + 1, la, indent), indent);
  }

  // ---------------------------------------------------------------- the list that grows

  /** Lines that belong to the list by themselves carry it on. */
  lemma {:induction false} ListRunsOn(lines: seq<Line>, last: nat, i: nat, j: nat, indent: string)
    requires last < |lines| && i <= j <= last + 1
    requires forall k | i <= k < j :: InList(lines, k, last, indent)
    ensures ListEnd(lines, i, last, indent) == ListEnd(lines, j, last, indent)
    decreases j - i
  {
    if i < j {
      assert InList(lines, i, last, indent);
      ListRunsOn(lines, last, i + 1, j, indent);
    }
  }

  lemma {:induction false} ListIsInList(lines: seq<Line>, last: nat, i: nat, k: nat, indent: string)
    requires last < |lines| && i <= last + 1 && i <= k < ListEnd(lines, i, last, indent)
    ensures k <= last && InList(lines, k, last, indent)
    ensures ListEnd(lines, k, last, indent) == ListEnd(lines, i, last, indent)
    decreases k - i
  {
    if i < k {
      ListIsInList(lines, last, i + 1, k, indent);
    }
  }

  /** A blank line of a list is followed by a line of the same list: the last is not blank. */
  lemma {:induction false} BlankIsFollowed(lines: seq<Line>, last: nat, j: nat, indent: string)
    requires last < |lines| && j <= last + 1 && GoesOn(lines, j, last, indent)
    ensures j < ListEnd(lines, j, last, indent)
    ensures !lines[ListEnd(lines, j, last, indent) - 1].Blank?
    decreases last + 1 - j
  {
    if lines[j].Blank? {
      BlankIsFollowed(lines, last, j + 1, indent);
    } else {
      LastIsNotBlank(lines, last, j, indent);
    }
  }

  lemma {:induction false} LastIsNotBlank(lines: seq<Line>, last: nat, j: nat, indent: string)
    requires last < |lines| && j <= last && !lines[j].Blank? && InList(lines, j, last, indent)
    ensures !lines[ListEnd(lines, j, last, indent) - 1].Blank?
    decreases last + 1 - j, 0
  {
    var e := ListEnd(lines, j + 1, last, indent);
    assert ListEnd(lines, j, last, indent) == e;
    if e > j + 1 {
      if lines[j + 1].Blank? {
        BlankIsFollowed(lines, last, j + 2, indent);
      } else {
        LastIsNotBlank(lines, last, j + 1, indent);
      }
    }
  }

  lemma {:induction false} VersionsOfBlock(lines: seq<Line>, i: nat, j: nat, h: History, version: Version)
    requires i < j <= |lines| && IsBlockFor(lines[i..j], h, version)
    ensures VersionsIn(lines, i, j, h.indent) == [version]
    decreases j
  {
    if i + 1 < j {
      assert IsDeeper(lines[i..j][j - 1 - i], h.indent);
      assert lines[i..j - 1] == lines[i..j][..j - 1 - i];
      VersionsOfBlock(lines, i, j - 1, h, version);
    } else {
      assert lines[i..j][0] == lines[i];
    }
  }

  /** The block's lines are all in the list. */
  lemma BlockRunsOn(lines: seq<Line>, last: nat, at: nat, m: nat, h: History, version: Version)
    requires last < |lines| && at + m <= last + 1 && IsBlockFor(lines[at..at + m], h, version)
    ensures ListEnd(lines, at, last, h.indent) == ListEnd(lines, at + m, last, h.indent)
  {
    forall k | at <= k < at + m
      ensures InList(lines, k, last, h.indent)
    {
      assert lines[at..at + m][k - at] == lines[k];
    }
    ListRunsOn(lines, last, at, at + m, h.indent);
  }

  /** The grown list: one version more, at the end the list grows at, and its lines moved. */
  function Grown(h: History, version: Version, m: nat): History {
    h.(lastLine := h.lastLine + m,
       versions := if Descending(h.versions) then [version] + h.versions else h.versions + [version])
  }

  /** b is a with the block at line at. */
  ghost predicate HasBlock(a: seq<Line>, la: nat, b: seq<Line>, lb: nat, at: nat, block: seq<Line>) {
    && Moved(a, la, b, lb, at, |block|)
    && at <= |a| && at + |block| <= |b| && a[..at] == b[..at] && b[at..at + |block|] == block
  }

  lemma InsertMoves(lines: seq<Line>, last: nat, at: nat, block: seq<Line>)
    requires last < |lines| && at <= last + 1
    ensures HasBlock(lines, last, Insert(lines, at, block), last + |block|, at, block)
  {
  }

  /** Newest first: the entry goes right under the heading. */
  lemma GrowsAtTop(a: seq<Line>, la: nat, b: seq<Line>, lb: nat, i: nat, block: seq<Line>, h: History, version: Version)
    requires i <= la < |a| && StartsList(a, i, la) && h == HistoryAt(a, i, la)
    requires Descending(h.versions) && IsBlockFor(block, h, version)
    requires HasBlock(a, la, b, lb, i + 1, block)
    ensures StartsList(b, i, lb) && HistoryAt(b, i, lb) == Grown(h, version, |block|)
  {
    var m := |block|;
    HistoryIsList(a, i, la);
    assert a[i] == a[..i + 1][i] == b[i];
    assert b[i + 1] == b[i + 1..i + 1 + m][0];
    BlockRunsOn(b, lb, i + 1, m, h, version);
    ListEndMoved(a, la, b, lb, i + 1, m, i + 1, h.indent);
    VersionsAtTop(a, la, b, lb, i + 1, block, h, version, h.lastLine + 1);
  }

  lemma VersionsAtTop(a: seq<Line>, la: nat, b: seq<Line>, lb: nat, at: nat, block: seq<Line>, h: History,
                      version: Version, e: nat)
    requires HasBlock(a, la, b, lb, at, block) && IsBlockFor(block, h, version) && at <= e <= la + 1
    ensures e + |block| <= |b|
    ensures VersionsIn(b, at, e + |block|, h.indent) == [version] + VersionsIn(a, at, e, h.indent)
  {
    var m := |block|;
    VersionsGrow(b, at, at + m, e + m, h.indent);
    VersionsOfBlock(b, at, at + m, h, version);
    VersionsMoved(a, la, b, lb, at, m, at, e, h.indent);
  }

  /** Newest last: the entry goes after the list's last line. */
  lemma GrowsAtBottom(a: seq<Line>, la: nat, b: seq<Line>, lb: nat, i: nat, block: seq<Line>, h: History,
                      version: Version)
    requires i <= la < |a| && StartsList(a, i, la) && h == HistoryAt(a, i, la)
    requires !Descending(h.versions) && IsBlockFor(block, h, version)
    requires HasBlock(a, la, b, lb, h.lastLine + 1, block)
    ensures StartsList(b, i, lb) && HistoryAt(b, i, lb) == Grown(h, version, |block|)
  {
    var m := |block|;
    HistoryIsList(a, i, la);
    var e := h.lastLine + 1;
    assert a[i] == a[..e][i] == b[i] && a[i + 1] == a[..e][i + 1] == b[i + 1];
    OldLinesStayInList(a, la, b, lb, i, e, h.indent);
    ListRunsOn(b, lb, i + 1, e, h.indent);
    BlockRunsOn(b, lb, e, m, h, version);
    ListEndMoved(a, la, b, lb, e, m, e, h.indent);
    ListStopsAtEnd(a, la, i + 1, h.indent);
    VersionsAtBottom(a, b, i + 1, e, block, h, version);
  }

  lemma VersionsAtBottom(a: seq<Line>, b: seq<Line>, i: nat, e: nat, block: seq<Line>, h: History, version: Version)
    requires i <= e <= |a| && e + |block| <= |b| && a[..e] == b[..e] && b[e..e + |block|] == block
    requires IsBlockFor(block, h, version)
    ensures VersionsIn(b, i, e + |block|, h.indent) == VersionsIn(a, i, e, h.indent) + [version]
  {
    VersionsGrow(b, i, e, e + |block|, h.indent);
    VersionsOfBlock(b, e, e + |block|, h, version);
    VersionsLocal(a, b, i, e, e, h.indent);
  }

  lemma {:induction false} ListStopsAtEnd(lines: seq<Line>, last: nat, j: nat, indent: string)
    requires last < |lines| && j <= last + 1
    ensures var e := ListEnd(lines, j, last, indent); ListEnd(lines, e, last, indent) == e
    decreases last + 1 - j
  {
    if j <= last && InList(lines, j, last, indent) {
      ListStopsAtEnd(lines, last, j + 1, indent);
    }
  }

  /** With the lines up to a list's end unchanged, they stay in the list. */
  lemma OldLinesStayInList(a: seq<Line>, la: nat, b: seq<Line>, lb: nat, i: nat, e: nat, indent: string)
    requires i < la < |a| && lb < |b| && StartsList(a, i, la) && indent == a[i + 1].indent
    requires e == ListEnd(a, i + 1, la, indent) && e <= lb + 1 && e <= |b| && a[..e] == b[..e]
    ensures forall k | i + 1 <= k < e :: InList(b, k, lb, indent)
  {
    LastIsNotBlank(a, la, i + 1, indent);
    forall k | i + 1 <= k < e
      ensures InList(b, k, lb, indent)
    {
      ListIsInList(a, la, i + 1, k, indent);
      assert a[k] == a[..e][k] == b[k];
      if a[k].Blank? {
        assert k < e - 1;
        assert a[..e - 1 + 1] == a[..e] && b[..e - 1 + 1] == b[..e];
        GoesOnLocal(a, la, b, lb, k + 1, e - 1, indent);
      }
    }
  }

  // ---------------------------------------------------------------- the whole docstring

  /** The lists of b, of which the k-th grew. */
  function AllGrown(hs: seq<History>, k: nat, version: Version, m: nat): seq<History>
    requires k < |hs|
  {
    hs[..k] + [Grown(hs[k], version, m)] + MoveAll(hs[k + 1..], m)
  }

  lemma {:induction false} ReparseFrom(a: seq<Line>, la: nat, b: seq<Line>, lb: nat, i: nat, k: nat, at: nat,
                                       block: seq<Line>, version: Version)
    requires la < |a| && i <= la + 1
    requires k < |HistoriesFrom(a, i, la)| && at == InsertPoint(HistoriesFrom(a, i, la)[k])
    requires IsBlockFor(block, HistoriesFrom(a, i, la)[k], version)
    requires HasBlock(a, la, b, lb, at, block)
    ensures HistoriesFrom(b, i, lb) == AllGrown(HistoriesFrom(a, i, la), k, version, |block|)
    decreases la + 1 - i, 1
  {
    if !StartsList(a, i, la) {
      HeadingBelow(a, i + 1, la, k);
      ReparseFrom(a, la, b, lb, i + 1, k, at, block, version);
      StillNoList(a, la, b, lb, i, at);
    } else if k == 0 {
      ReparseHere(a, la, b, lb, i, at, block, version);
    } else {
      ReparseBelow(a, la, b, lb, i, k, at, block, version);
    }
  }

  /** The list that grows is a later one. */
  lemma {:induction false} ReparseBelow(a: seq<Line>, la: nat, b: seq<Line>, lb: nat, i: nat, k: nat, at: nat,
                                        block: seq<Line>, version: Version)
    requires i <= la < |a| && StartsList(a, i, la)
    requires 0 < k < |HistoriesFrom(a, i, la)| && at == InsertPoint(HistoriesFrom(a, i, la)[k])
    requires IsBlockFor(block, HistoriesFrom(a, i, la)[k], version)
    requires HasBlock(a, la, b, lb, at, block)
    ensures HistoriesFrom(b, i, lb) == AllGrown(HistoriesFrom(a, i, la), k, version, |block|)
    decreases la + 1 - i, 0
  {
    var h := HistoryAt(a, i, la);
    HistoryIsList(a, i, la);
    var rest := HistoriesFrom(a, h.lastLine + 1, la);
    assert HistoriesFrom(a, i, la) == [h] + rest && rest[k - 1] == ([h] + rest)[k];
    ReparseFrom(a, la, b, lb, h.lastLine + 1, k - 1, at, block, version);
    SameList(a, la, b, lb, i, at, k - 1);
    LaterGrown(h, rest, k, version, |block|);
  }

  lemma LaterGrown(h: History, rest: seq<History>, k: nat, version: Version, m: nat)
    requires 0 < k <= |rest|
    ensures AllGrown([h] + rest, k, version, m) == [h] + AllGrown(rest, k - 1, version, m)
  {
    var hs := [h] + rest;
    assert hs[..k] == [h] + rest[..k - 1] && hs[k + 1..] == rest[k..];
  }

  lemma ReparseHere(a: seq<Line>, la: nat, b: seq<Line>, lb: nat, i: nat, at: nat, block: seq<Line>, version: Version)
    requires i <= la < |a| && StartsList(a, i, la)
    requires at == InsertPoint(HistoryAt(a, i, la)) && IsBlockFor(block, HistoryAt(a, i, la), version)
    requires HasBlock(a, la, b, lb, at, block)
    ensures HistoriesFrom(b, i, lb) == AllGrown(HistoriesFrom(a, i, la), 0, version, |block|)
  {
    var h := HistoryAt(a, i, la);
    HistoryIsList(a, i, la);
    if Descending(h.versions) {
      GrowsAtTop(a, la, b, lb, i, block, h, version);
    } else {
      GrowsAtBottom(a, la, b, lb, i, block, h, version);
    }
    hide HistoryAt, StartsList, IsBlockFor;
    var rest := HistoriesFrom(a, h.lastLine + 1, la);
    HistoriesMoved(a, la, b, lb, at, |block|, h.lastLine + 1);
    assert HistoriesFrom(b, i, lb) == [Grown(h, version, |block|)] + MoveAll(rest, |block|);
    assert HistoriesFrom(a, i, la) == [h] + rest;
    FirstGrown(h, rest, version, |block|);
  }

  lemma FirstGrown(h: History, rest: seq<History>, version: Version, m: nat)
    ensures AllGrown([h] + rest, 0, version, m) == [Grown(h, version, m)] + MoveAll(rest, m)
  {
    assert ([h] + rest)[..0] == [] && ([h] + rest)[1..] == rest;
  }

  /** Parsing again after the entry was added next to the k-th list gives the lists before
      it unchanged, that list grown by the one version, and the lists after it moved down. */
  lemma InsertThenReparse(lines: seq<Line>, first: nat, last: nat, k: nat, block: seq<Line>, version: Version)
    requires first <= last < |lines|
    requires k < |HistoriesFrom(lines, first, last)|
    requires IsBlockFor(block, HistoriesFrom(lines, first, last)[k], version)
    ensures var hs := HistoriesFrom(lines, first, last);
            InsertPoint(hs[k]) <= last + 1
            && HistoriesFrom(Insert(lines, InsertPoint(hs[k]), block), first, last + |block|)
               == AllGrown(hs, k, version, |block|)
  {
    HeadingBelow(lines, first, last, k);
    var at := InsertPoint(HistoriesFrom(lines, first, last)[k]);
    InsertMoves(lines, last, at, block);
    ReparseFrom(lines, last, Insert(lines, at, block), last + |block|, first, k, at, block, version);
  }

  /** Another docstring's histories are the same: in place above the insertion, moved down
      below it. */
  lemma OtherDocstringStays(lines: seq<Line>, at: nat, block: seq<Line>, other: Span)
    requires other.first <= other.last < |lines| && at <= |lines|
    requires other.last < at || at <= other.first
    ensures var after, m := Insert(lines, at, block), if other.last < at then 0 else |block|;
            && other.last + m < |after|
            && HistoriesFrom(after, other.first + m, other.last + m)
               == MoveAll(HistoriesFrom(lines, other.first, other.last), m)
  {
    hide HistoriesFrom;
    var after, m := Insert(lines, at, block), if other.last < at then 0 else |block|;
    assert forall i | other.first <= i <= other.last :: after[i + m] == lines[i];
    HistoriesMoved(lines, other.last, after, other.last + m, other.first, m, other.first);
  }

  /** A line before the insertion that starts no list starts none after it. */
  lemma StillNoList(a: seq<Line>, la: nat, b: seq<Line>, lb: nat, i: nat, at: nat)
    requires la < |a| && la <= lb < |b| && i + 1 < at <= la + 1 && at <= |b| && a[..at] == b[..at]
    requires !StartsList(a, i, la)
    ensures !StartsList(b, i, lb)
  {
    assert a[i] == a[..at][i] == b[i] && a[i + 1] == a[..at][i + 1] == b[i + 1];
  }

  /** A list before the one that grows is parsed as it was. */
  lemma SameList(a: seq<Line>, la: nat, b: seq<Line>, lb: nat, i: nat, at: nat, k: nat)
    requires i <= la < |a| && la <= lb < |b| && StartsList(a, i, la)
    requires var rest := HistoriesFrom(a, HistoryAt(a, i, la).lastLine + 1, la);
             k < |rest| && at == InsertPoint(rest[k])
    requires at <= la + 1 && at <= |b| && a[..at] == b[..at]
    ensures StartsList(b, i, lb) && HistoryAt(b, i, lb) == HistoryAt(a, i, la)
  {
    var h := HistoryAt(a, i, la);
    HistoryIsList(a, i, la);
    var e := h.lastLine + 1;
    HeadingBelow(a, e, la, k);
    var stop := HistoriesFrom(a, e, la)[k].firstEntry - 1;
    assert stop + 1 <= at;
    assert a[i] == a[..at][i] == b[i] && a[i + 1] == a[..at][i + 1] == b[i + 1];
    assert a[..stop + 1] == a[..at][..stop + 1] == b[..stop + 1];
    ListEndLocal(a, la, b, lb, i + 1, stop, h.indent);
    VersionsLocal(a, b, i + 1, e, stop + 1, h.indent);
  }

  /** Above every list's first entry is its heading. */
  lemma {:induction false} HeadingBelow(lines: seq<Line>, i: nat, last: nat, k: nat)
    requires last < |lines| && i <= last + 1 && k < |HistoriesFrom(lines, i, last)|
    ensures var h := HistoriesFrom(lines, i, last)[k];
            i < h.firstEntry <= h.lastLine <= last && lines[h.firstEntry - 1].Heading?
    decreases last + 1 - i
  {
    if StartsList(lines, i, last) {
      HistoryIsList(lines, i, last);
      if k > 0 {
        HeadingBelow(lines, HistoryAt(lines, i, last).lastLine + 1, last, k - 1);
      }
    } else {
      HeadingBelow(lines, i + 1, last, k);
    }
  }

  /** The added version is the list's newest when it was above the newest, and the list
      keeps its order, so the next version finds it and goes to the same end. */
  lemma GrownIsNewest(h: History, version: Version, m: nat)
    requires h.versions != [] && Below(NewestOf(h.versions), version)
    ensures NewestOf(Grown(h, version, m).versions) == version
    ensures Descending(Grown(h, version, m).versions) == Descending(h.versions)
    ensures multiset(Grown(h, version, m).versions) == multiset(h.versions) + multiset{version}
  {
    var vs := Grown(h, version, m).versions;
    forall v | v in vs
      ensures NotAbove(v, version)
    {
      if v != version {
        assert v in h.versions && NotAbove(v, NewestOf(h.versions));
      }
    }
    assert version in vs by {
      if Descending(h.versions) { assert vs[0] == version; } else { assert vs[|vs| - 1] == version; }
    }
    NewestIs(vs, version);
    assert h.versions[0] in h.versions && h.versions[|h.versions| - 1] in h.versions;
    assert NotAbove(h.versions[0], NewestOf(h.versions))
           && NotAbove(h.versions[|h.versions| - 1], NewestOf(h.versions));
    if Descending(h.versions) {
      assert vs[|vs| - 1] == h.versions[|h.versions| - 1];
    } else {
      assert vs[0] == h.versions[0];
    }
  }

  /** Every line of the docstring survives, in order. */
  lemma InsertKeepsLines(lines: seq<Line>, at: nat, block: seq<Line>)
    requires at <= |lines|
    ensures var b := Insert(lines, at, block);
            b[..at] + b[at + |block|..] == lines && b[at..at + |block|] == block
  {
  }

  /** insert_history_entry followed by _histories: the same lists, and the one that held
      current now holds the new version as its newest. */
  lemma InsertedEntryIsFound(lines: seq<Line>, first: nat, last: nat, k: nat, block: seq<Line>,
                             current: Version, version: Version)
    requires first <= last < |lines| && Below(current, version)
    requires forall h | h in HistoriesFrom(lines, first, last) :: h.versions != []
    requires FindHistory(HistoriesFrom(lines, first, last), current) == Some(k)
    requires k < |HistoriesFrom(lines, first, last)|
    requires IsBlockFor(block, HistoriesFrom(lines, first, last)[k], version)
    ensures var hs := HistoriesFrom(lines, first, last);
            var at := InsertPoint(hs[k]);
            at <= |lines|
            && var hs' := HistoriesFrom(Insert(lines, at, block), first, last + |block|);
            && |hs'| == |hs|
            && (forall j | 0 <= j < |hs| && j != k :: hs'[j].versions == hs[j].versions)
            && multiset(hs'[k].versions) == multiset(hs[k].versions) + multiset{version}
            && hs'[k].versions != [] && NewestOf(hs'[k].versions) == version
            && Descending(hs'[k].versions) == Descending(hs[k].versions)
  {
    var hs := HistoriesFrom(lines, first, last);
    FoundIsNewest(hs, current);
    InsertThenReparse(lines, first, last, k, block, version);
    GrownIsNewest(hs[k], version, |block|);
  }

  lemma {:induction false} FoundIsNewest(hs: seq<History>, want: Version)
    requires forall h | h in hs :: h.versions != []
    ensures match FindHistory(hs, want)
            case None => forall h | h in hs :: NewestOf(h.versions) != want
            case Some(k) => k < |hs| && hs[k].versions != [] && NewestOf(hs[k].versions) == want
                            && forall j | 0 <= j < k :: NewestOf(hs[j].versions) != want
  {
    if hs != [] {
      FoundIsNewest(hs[1..], want);
    }
  }
}
