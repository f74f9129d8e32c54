/** The patch algebra of ci/hunk_revert.py: putting back one hunk of a zero-context diff. */
module HunkRevert {
  import opened Texts

  /** One git diff -U0 hunk: the header's four numbers. */
  datatype Hunk = Hunk(oldStart: int, oldCount: nat, newStart: int, newCount: nat)

  /** _old_and_new: the base's lines, HEAD's lines and where they start. */
  function OldAndNew(head: string, base: string, hunk: Hunk): (seq<string>, seq<string>, int) {
    var baseLines := SplitLines(base);
    var removed := PySlice(baseLines, hunk.oldStart - 1, hunk.oldStart - 1 + hunk.oldCount);
    var start := if hunk.newCount != 0 then hunk.newStart - 1 else hunk.newStart;
    var headLines := SplitLines(head);
    (removed, PySlice(headLines, start, start + hunk.newCount), start)
  }

  /** revert: HEAD's text with this hunk's lines replaced by the merge base's. */
  function Revert(head: string, base: string, hunk: Hunk): string {
    var (removed, _, start) := OldAndNew(head, base, hunk);
    var headLines := SplitLines(head);
    Concat(PySlice(headLines, 0, start) + removed + PySlice(headLines, start + hunk.newCount, |headLines|))
  }

  // ---------------------------------------------------------------- zero-context diffs

  /** Index of the first line removed from the base; a header with no old line names the
      line before it. */
  function OldAt(hunk: Hunk): int {
    if hunk.oldCount != 0 then hunk.oldStart - 1 else hunk.oldStart
  }

  function NewAt(hunk: Hunk): int {
    if hunk.newCount != 0 then hunk.newStart - 1 else hunk.newStart
  }

  function OldEnd(hunk: Hunk): int {
    OldAt(hunk) + hunk.oldCount
  }

  function NewEnd(hunk: Hunk): int {
    NewAt(hunk) + hunk.newCount
  }

  /** From line b of the base and line h of HEAD on, the hunks are exactly the differences. */
  predicate DiffFrom(base: seq<string>, head: seq<string>, hunks: seq<Hunk>, b: nat, h: nat)
    requires b <= |base| && h <= |head|
    decreases |hunks|
  {
    if hunks == [] then base[b..] == head[h..]
    else
      var k := hunks[0];
      && b <= OldAt(k) && OldEnd(k) <= |base|
      && h <= NewAt(k) && NewEnd(k) <= |head|
      && base[b..OldAt(k)] == head[h..NewAt(k)]
      && DiffFrom(base, head, hunks[1..], OldEnd(k), NewEnd(k))
  }

  predicate IsDiff(base: seq<string>, head: seq<string>, hunks: seq<Hunk>) {
    DiffFrom(base, head, hunks, 0, 0)
  }

  /** At least one unchanged line between two hunks, as git writes them. */
  predicate Gapped(hunks: seq<Hunk>) {
    forall i | 0 <= i < |hunks| - 1 :: OldEnd(hunks[i]) < OldAt(hunks[i + 1])
  }

  // ---------------------------------------------------------------- one hunk put back

  /** HEAD's lines with the hunk's lines replaced. */
  function RevertedLines(base: seq<string>, head: seq<string>, hunk: Hunk): seq<string>
    requires 0 <= OldAt(hunk) && OldEnd(hunk) <= |base|
    requires 0 <= NewAt(hunk) && NewEnd(hunk) <= |head|
  {
    head[..NewAt(hunk)] + base[OldAt(hunk)..OldEnd(hunk)] + head[NewEnd(hunk)..]
  }

  /** revert's slices, its off-by-one cases and its index of -1 included, name exactly the
      hunk's lines. */
  lemma RevertText(head: string, base: string, hunk: Hunk)
    requires 0 <= OldAt(hunk) && OldEnd(hunk) <= |SplitLines(base)|
    requires 0 <= NewAt(hunk) && NewEnd(hunk) <= |SplitLines(head)|
    ensures OldAndNew(head, base, hunk).0 == SplitLines(base)[OldAt(hunk)..OldEnd(hunk)]
    ensures OldAndNew(head, base, hunk).1 == SplitLines(head)[NewAt(hunk)..NewEnd(hunk)]
    ensures Revert(head, base, hunk) == Concat(RevertedLines(SplitLines(base), SplitLines(head), hunk))
  {
    var b, h := SplitLines(base), SplitLines(head);
    assert PySlice(b, hunk.oldStart - 1, hunk.oldStart - 1 + hunk.oldCount) == b[OldAt(hunk)..OldEnd(hunk)];
    assert PySlice(h, 0, NewAt(hunk)) == h[..NewAt(hunk)];
    assert PySlice(h, NewEnd(hunk), |h|) == h[NewEnd(hunk)..];
  }

  /** Every hunk of a diff lies inside both texts, and the lines around it agree. */
  lemma {:induction false} HunkFits(base: seq<string>, head: seq<string>, hunks: seq<Hunk>, b: nat, h: nat, k: nat)
    requires b <= |base| && h <= |head| && DiffFrom(base, head, hunks, b, h) && k < |hunks|
    ensures b <= OldAt(hunks[k]) && OldEnd(hunks[k]) <= |base|
    ensures h <= NewAt(hunks[k]) && NewEnd(hunks[k]) <= |head|
    ensures DiffFrom(base, head, hunks[k + 1..], OldEnd(hunks[k]), NewEnd(hunks[k]))
    decreases k
  {
    if k > 0 {
      HunkFits(base, head, hunks[1..], OldEnd(hunks[0]), NewEnd(hunks[0]), k - 1);
      assert hunks[1..][k - 1] == hunks[k];
      assert hunks[1..][k..] == hunks[k + 1..];
    } else {
      assert hunks[1..] == hunks[k + 1..];
    }
  }

  /** The line before a hunk, if any, is the base's line before it. */
  lemma {:induction false} LineBefore(base: seq<string>, head: seq<string>, hunks: seq<Hunk>, b: nat, h: nat, k: nat)
    requires b <= |base| && h <= |head| && DiffFrom(base, head, hunks, b, h) && k < |hunks|
    requires Gapped(hunks) && (b == h == 0 || b < OldAt(hunks[0]))
    ensures OldAt(hunks[k]) == 0 <==> NewAt(hunks[k]) == 0
    ensures 0 < OldAt(hunks[k]) <= |base| && 0 < NewAt(hunks[k]) <= |head|
            ==> base[OldAt(hunks[k]) - 1] == head[NewAt(hunks[k]) - 1]
    decreases k
  {
    if k > 0 {
      assert hunks[1..][0] == hunks[1] && hunks[1..][k - 1] == hunks[k];
      assert Gapped(hunks[1..]) by {
        forall i | 0 <= i < |hunks[1..]| - 1
          ensures OldEnd(hunks[1..][i]) < OldAt(hunks[1..][i + 1])
        {
          assert hunks[1..][i] == hunks[i + 1] && hunks[1..][i + 1] == hunks[i + 2];
        }
      }
      assert OldEnd(hunks[0]) < OldAt(hunks[0 + 1]);
      LineBefore(base, head, hunks[1..], OldEnd(hunks[0]), NewEnd(hunks[0]), k - 1);
    } else {
      var o, n := OldAt(hunks[0]), NewAt(hunks[0]);
      assert base[b..o] == head[h..n];
      if b < o {
        assert o - b == n - h;
        assert base[b..o][o - b - 1] == head[h..n][o - b - 1];
      }
    }
  }

  /** A hunk with text after it in HEAD has text after it in the base. */
  lemma TextAfter(base: seq<string>, head: seq<string>, hunks: seq<Hunk>, k: nat)
    requires IsDiff(base, head, hunks) && Gapped(hunks) && k < |hunks|
    requires 0 <= OldEnd(hunks[k]) <= |base| && 0 <= NewEnd(hunks[k]) < |head|
    ensures OldEnd(hunks[k]) < |base|
  {
    HunkFits(base, head, hunks, 0, 0, k);
    if k + 1 < |hunks| {
      HunkFits(base, head, hunks, 0, 0, k + 1);
      assert OldEnd(hunks[k]) < OldAt(hunks[k + 1]);
    } else {
      assert hunks[k + 1..] == [];
      assert base[OldEnd(hunks[k])..] == head[NewEnd(hunks[k])..];
    }
  }

  /** reverting swaps exactly that hunk's lines and keeps every other line whole. */
  lemma RevertExact(head: string, base: string, hunks: seq<Hunk>, k: nat)
    requires IsDiff(SplitLines(base), SplitLines(head), hunks) && Gapped(hunks) && k < |hunks|
    ensures 0 <= OldAt(hunks[k]) && OldEnd(hunks[k]) <= |SplitLines(base)|
    ensures 0 <= NewAt(hunks[k]) && NewEnd(hunks[k]) <= |SplitLines(head)|
    ensures SplitLines(Revert(head, base, hunks[k]))
         == RevertedLines(SplitLines(base), SplitLines(head), hunks[k])
  {
    var B, H := SplitLines(base), SplitLines(head);
    HunkFits(B, H, hunks, 0, 0, k);
    RevertText(head, base, hunks[k]);
    JoinSplit(base);
    JoinSplit(head);
    RevertedIsWellSplit(B, H, hunks, k);
    SplitJoinWell(RevertedLines(B, H, hunks[k]));
  }

  lemma RevertedIsWellSplit(B: seq<string>, H: seq<string>, hunks: seq<Hunk>, k: nat)
    requires WellSplit(B) && WellSplit(H) && IsDiff(B, H, hunks) && Gapped(hunks) && k < |hunks|
    requires 0 <= OldAt(hunks[k]) && OldEnd(hunks[k]) <= |B| && 0 <= NewAt(hunks[k]) && NewEnd(hunks[k]) <= |H|
    ensures WellSplit(RevertedLines(B, H, hunks[k]))
  {
    LineBefore(B, H, hunks, 0, 0, k);
    if NewEnd(hunks[k]) < |H| { TextAfter(B, H, hunks, k); }
    ReplacedIsWellSplit(B, H, OldAt(hunks[k]), OldEnd(hunks[k]), NewAt(hunks[k]), NewEnd(hunks[k]));
  }

  /** Lines o..oe of one text in place of lines n..ne of another are again a text's lines,
      when the lines before agree and text that follows in the second follows in the first. */
  lemma ReplacedIsWellSplit(B: seq<string>, H: seq<string>, o: nat, oe: nat, n: nat, ne: nat)
    requires WellSplit(B) && WellSplit(H) && o <= oe <= |B| && n <= ne <= |H|
    requires o == 0 <==> n == 0
    requires o > 0 ==> B[o - 1] == H[n - 1]
    requires ne < |H| ==> oe < |B|
    ensures WellSplit(H[..n] + B[o..oe] + H[ne..])
  {
    SubIsWellSplit(H, 0, n);
    SubIsWellSplit(B, o, oe);
    SubIsWellSplit(H, ne, |H|);
    if n > 0 && (o < oe || ne < |H|) { assert Ended(B[o - 1]); }
    SeamIsWellSplit(H[0..n], B[o..oe]);
    var top := H[0..n] + B[o..oe];
    if top != [] && ne < |H| {
      if o < oe {
        assert Ended(B[oe - 1]) && top[|top| - 1] == B[oe - 1];
      } else {
        assert top[|top| - 1] == H[n - 1];
      }
    }
    SeamIsWellSplit(top, H[ne..|H|]);
    assert H[0..n] == H[..n] && H[ne..|H|] == H[ne..];
  }

  lemma SubIsWellSplit(lines: seq<string>, i: nat, j: nat)
    requires WellSplit(lines) && i <= j <= |lines|
    ensures WellSplit(lines[i..j])
  {
  }

  /** Two runs of lines make a text's lines when the first ends in \n or the second is empty. */
  lemma SeamIsWellSplit(a: seq<string>, b: seq<string>)
    ensures WellSplit(a) && WellSplit(b) && (a == [] || b == [] || Ended(a[|a| - 1])) ==> WellSplit(a + b)
  {
    var c := a + b;
    assert forall i | 0 <= i < |c| :: c[i] == if i < |a| then a[i] else b[i - |a|];
  }

  // ---------------------------------------------------------------- the rest of the diff stays

  function Shift(hunks: seq<Hunk>, delta: int): seq<Hunk> {
    seq(|hunks|, i requires 0 <= i < |hunks| => hunks[i].(newStart := hunks[i].newStart + delta))
  }

  /** The same diff against a HEAD whose earlier lines grew or shrank. */
  lemma {:induction false} ShiftedDiff(base: seq<string>, head: seq<string>, head': seq<string>,
                                       hunks: seq<Hunk>, b: nat, h: nat, h': nat, delta: int)
    requires b <= |base| && h <= |head| && h' <= |head'| && h' == h + delta && head[h..] == head'[h'..]
    requires DiffFrom(base, head, hunks, b, h)
    ensures DiffFrom(base, head', Shift(hunks, delta), b, h')
    decreases |hunks|
  {
    if hunks != [] {
      var k, k' := hunks[0], Shift(hunks, delta)[0];
      assert Shift(hunks, delta)[1..] == Shift(hunks[1..], delta);
      assert NewAt(k') == NewAt(k) + delta;
      assert |head| - h == |head'| - h' by { assert |head[h..]| == |head'[h'..]|; }
      assert head[h..NewAt(k)] == head[h..][..NewAt(k) - h];
      assert head'[h'..NewAt(k')] == head'[h'..][..NewAt(k) - h];
      assert head[NewEnd(k)..] == head[h..][NewEnd(k) - h..];
      assert head'[NewEnd(k')..] == head'[h'..][NewEnd(k) - h..];
      ShiftedDiff(base, head, head', hunks[1..], OldEnd(k), NewEnd(k), NewEnd(k'), delta);
    }
  }

  /** A diff may start earlier, at lines that agree. */
  lemma EarlierDiff(base: seq<string>, head: seq<string>, hunks: seq<Hunk>, b0: nat, h0: nat, b: nat, h: nat)
    requires b0 <= b <= |base| && h0 <= h <= |head| && base[b0..b] == head[h0..h]
    requires DiffFrom(base, head, hunks, b, h)
    ensures DiffFrom(base, head, hunks, b0, h0)
  {
    if hunks == [] {
      assert base[b0..] == base[b0..b] + base[b..] && head[h0..] == head[h0..h] + head[h..];
    } else {
      var k := hunks[0];
      assert base[b0..OldAt(k)] == base[b0..b] + base[b..OldAt(k)];
      assert head[h0..NewAt(k)] == head[h0..h] + head[h..NewAt(k)];
    }
  }

  /** The lines of HEAD with a hunk put back: up to its end they are the base's. */
  lemma PutBackParts(base: seq<string>, head: seq<string>, x: Hunk, b: nat, h: nat)
    requires b <= OldAt(x) && OldEnd(x) <= |base| && h <= NewAt(x) && NewEnd(x) <= |head|
    requires base[b..OldAt(x)] == head[h..NewAt(x)]
    ensures var back, end := RevertedLines(base, head, x), NewAt(x) + x.oldCount;
            h <= end <= |back| && back[end..] == head[NewEnd(x)..] && back[h..end] == base[b..OldEnd(x)]
  {
    var back, end := RevertedLines(base, head, x), NewAt(x) + x.oldCount;
    assert back[h..end] == head[h..NewAt(x)] + base[OldAt(x)..OldEnd(x)];
    assert base[b..OldEnd(x)] == base[b..OldAt(x)] + base[OldAt(x)..OldEnd(x)];
  }

  lemma FirstPutBack(base: seq<string>, head: seq<string>, x: Hunk, rest: seq<Hunk>, b: nat, h: nat)
    requires b <= OldAt(x) && OldEnd(x) <= |base| && h <= NewAt(x) && NewEnd(x) <= |head|
    requires base[b..OldAt(x)] == head[h..NewAt(x)]
    requires DiffFrom(base, head, rest, OldEnd(x), NewEnd(x))
    ensures DiffFrom(base, RevertedLines(base, head, x), Shift(rest, x.oldCount - x.newCount), b, h)
  {
    PutBackParts(base, head, x, b, h);
    hide DiffFrom, RevertedLines;
    Continue(base, head, RevertedLines(base, head, x), rest, b, h, OldEnd(x), NewEnd(x), x.oldCount - x.newCount);
  }

  /** A diff from further down, moved to a HEAD whose lines above are the base's. */
  lemma Continue(base: seq<string>, head: seq<string>, head': seq<string>, rest: seq<Hunk>,
                 b: nat, h: nat, e: nat, n: nat, delta: int)
    requires b <= e <= |base| && n <= |head| && h <= n + delta <= |head'|
    requires DiffFrom(base, head, rest, e, n)
    requires head'[n + delta..] == head[n..] && head'[h..n + delta] == base[b..e]
    ensures DiffFrom(base, head', Shift(rest, delta), b, h)
  {
    ShiftedDiff(base, head, head', rest, e, n, n + delta, delta);
    EarlierDiff(base, head', Shift(rest, delta), b, h, e, n + delta);
  }

  /** With hunk k put back, the diff against the base is the other hunks, unchanged: those
      after it moved by the difference in length. */
  lemma {:induction false} OthersStay(base: seq<string>, head: seq<string>, head': seq<string>,
                                      hunks: seq<Hunk>, k: nat, later: seq<Hunk>, b: nat, h: nat)
    requires b <= |base| && h <= |head| && DiffFrom(base, head, hunks, b, h) && k < |hunks|
    requires OldEnd(hunks[k]) <= |base| && 0 <= OldAt(hunks[k]) && NewEnd(hunks[k]) <= |head| && 0 <= NewAt(hunks[k])
    requires head' == RevertedLines(base, head, hunks[k])
    requires later == Shift(hunks[k + 1..], hunks[k].oldCount - hunks[k].newCount)
    ensures h <= |head'| && DiffFrom(base, head', hunks[..k] + later, b, h)
    decreases k, 1
  {
    if k == 0 {
      hide RevertedLines, Shift;
      FirstPutBack(base, head, hunks[0], hunks[1..], b, h);
      assert hunks[..0] + later == later;
    } else {
      OthersStayBehind(base, head, head', hunks, k, later, b, h);
    }
  }

  lemma {:induction false} OthersStayBehind(base: seq<string>, head: seq<string>, head': seq<string>,
                                            hunks: seq<Hunk>, k: nat, later: seq<Hunk>, b: nat, h: nat)
    requires b <= |base| && h <= |head| && DiffFrom(base, head, hunks, b, h) && 0 < k < |hunks|
    requires OldEnd(hunks[k]) <= |base| && 0 <= OldAt(hunks[k]) && NewEnd(hunks[k]) <= |head| && 0 <= NewAt(hunks[k])
    requires head' == RevertedLines(base, head, hunks[k])
    requires later == Shift(hunks[k + 1..], hunks[k].oldCount - hunks[k].newCount)
    ensures h <= |head'| && DiffFrom(base, head', hunks[..k] + later, b, h)
    decreases k, 0
  {
    var f, rest := hunks[0], hunks[1..];
    HunkFits(base, head, rest, OldEnd(f), NewEnd(f), k - 1);
    assert rest[k - 1] == hunks[k] && rest[k..] == hunks[k + 1..];
    ReplacedPrefix(base, head, hunks[k], NewEnd(f));
    OthersStay(base, head, head', rest, k - 1, later, OldEnd(f), NewEnd(f));
    KeepFirst(base, head, head', hunks, k, later, b, h);
  }

  lemma ReplacedPrefix(base: seq<string>, head: seq<string>, hunk: Hunk, m: nat)
    requires 0 <= OldAt(hunk) && OldEnd(hunk) <= |base| && 0 <= NewAt(hunk) && NewEnd(hunk) <= |head|
    requires m <= NewAt(hunk)
    ensures m <= |RevertedLines(base, head, hunk)| && head[..m] == RevertedLines(base, head, hunk)[..m]
  {
  }

  /** A first hunk stays a difference of a HEAD that agrees with the old one up to its end. */
  lemma KeepFirst(base: seq<string>, head: seq<string>, head': seq<string>,
                  hunks: seq<Hunk>, k: nat, later: seq<Hunk>, b: nat, h: nat)
    requires b <= |base| && h <= |head| && 0 < k < |hunks| && DiffFrom(base, head, hunks, b, h)
    requires NewEnd(hunks[0]) <= |head'| && head[..NewEnd(hunks[0])] == head'[..NewEnd(hunks[0])]
    requires DiffFrom(base, head', hunks[1..][..k - 1] + later, OldEnd(hunks[0]), NewEnd(hunks[0]))
    ensures h <= |head'| && DiffFrom(base, head', hunks[..k] + later, b, h)
  {
    var f := hunks[0];
    var m := NewEnd(f);
    assert h <= NewAt(f) <= m;
    assert head[h..NewAt(f)] == head[..m][h..NewAt(f)] == head'[..m][h..NewAt(f)];
    assert head'[..m][h..NewAt(f)] == head'[h..NewAt(f)];
    var all := hunks[..k] + later;
    assert all[0] == f && all[1..] == hunks[1..][..k - 1] + later;
    ConsDiff(base, head', all, b, h);
  }

  lemma ConsDiff(base: seq<string>, head: seq<string>, hunks: seq<Hunk>, b: nat, h: nat)
    requires b <= |base| && h <= |head| && hunks != []
    requires b <= OldAt(hunks[0]) && OldEnd(hunks[0]) <= |base| && h <= NewAt(hunks[0]) && NewEnd(hunks[0]) <= |head|
    requires base[b..OldAt(hunks[0])] == head[h..NewAt(hunks[0])]
    requires DiffFrom(base, head, hunks[1..], OldEnd(hunks[0]), NewEnd(hunks[0]))
    ensures DiffFrom(base, head, hunks, b, h)
  {
  }

  /** A tree under test differs from the base by every hunk but the one put back. */
  lemma RevertLeavesTheOthers(head: string, base: string, hunks: seq<Hunk>, k: nat)
    requires IsDiff(SplitLines(base), SplitLines(head), hunks) && Gapped(hunks) && k < |hunks|
    ensures var delta := hunks[k].oldCount - hunks[k].newCount;
            IsDiff(SplitLines(base), SplitLines(Revert(head, base, hunks[k])),
                   hunks[..k] + Shift(hunks[k + 1..], delta))
  {
    RevertExact(head, base, hunks, k);
    var B, H := SplitLines(base), SplitLines(head);
    OthersStay(B, H, RevertedLines(B, H, hunks[k]), hunks, k,
               Shift(hunks[k + 1..], hunks[k].oldCount - hunks[k].newCount), 0, 0);
  }

  // ---------------------------------------------------------------- all hunks, bottom-up

  /** Every hunk put back, the last first. */
  function RevertAll(head: string, base: string, hunks: seq<Hunk>): string
    decreases |hunks|
  {
    if hunks == [] then head
    else RevertAll(Revert(head, base, hunks[|hunks| - 1]), base, hunks[..|hunks| - 1])
  }

  /** Reverting every hunk, bottom-up, gives exactly the base text. */
  lemma {:induction false} RevertAllIsBase(head: string, base: string, hunks: seq<Hunk>)
    requires IsDiff(SplitLines(base), SplitLines(head), hunks) && Gapped(hunks)
    ensures RevertAll(head, base, hunks) == base
    decreases |hunks|
  {
    if hunks == [] {
      JoinSplit(base);
      JoinSplit(head);
      assert SplitLines(base)[0..] == SplitLines(base) && SplitLines(head)[0..] == SplitLines(head);
    } else {
      var last := |hunks| - 1;
      RevertLeavesTheOthers(head, base, hunks, last);
      assert hunks[..last] + Shift(hunks[last + 1..], hunks[last].oldCount - hunks[last].newCount) == hunks[..last];
      RevertAllIsBase(Revert(head, base, hunks[last]), base, hunks[..last]);
    }
  }

  /** The gap matters: of two touching hunks, putting back the second alone joins its line
      to the first's, which has no newline. */
  lemma TouchingHunksJoinLines(base: string, head: string, hunks: seq<Hunk>)
    requires base == "p\nq\n" && head == "x"
    requires |hunks| == 2 && hunks[0] == Hunk(1, 1, 1, 1) && hunks[1] == Hunk(2, 1, 1, 0)
    ensures SplitLines(base) == ["p\n", "q\n"] && SplitLines(head) == ["x"]
    ensures IsDiff(SplitLines(base), SplitLines(head), hunks)
    ensures SplitLines(Revert(head, base, hunks[1])) != RevertedLines(SplitLines(base), SplitLines(head), hunks[1])
  {
    TouchingTexts();
    var B, H := SplitLines(base), SplitLines(head);
    TouchingIsDiff(B, H, hunks);
    RevertText(head, base, hunks[1]);
    var lines := RevertedLines(B, H, hunks[1]);
    assert lines[0] == H[0] && |lines| == 2;
    SplitJoin(lines);
    assert !Ended(lines[0]);
  }

  lemma TouchingIsDiff(B: seq<string>, H: seq<string>, hunks: seq<Hunk>)
    requires |B| == 2 && |H| == 1
    requires |hunks| == 2 && hunks[0] == Hunk(1, 1, 1, 1) && hunks[1] == Hunk(2, 1, 1, 0)
    ensures IsDiff(B, H, hunks)
  {
    var one := hunks[1..];
    assert one[0] == hunks[1] && one[1..] == [];
    assert B[2..] == H[1..];
    ConsDiff(B, H, one, 1, 1);
    ConsDiff(B, H, hunks, 0, 0);
  }

  lemma TouchingTexts()
    ensures SplitLines("p\nq\n") == ["p\n", "q\n"] && SplitLines("x") == ["x"]
  {
    var a, b, x := "p\n", "q\n", "x";
    assert a[..1] == "p" && b[..1] == "q" && x[..0] == "";
    TwoLines(a, b);
    OneLine(x);
    assert a + b == "p\nq\n";
  }
}
