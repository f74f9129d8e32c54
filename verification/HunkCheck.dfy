/**
 The patch algebra and the worktree pool together: what a tree under test holds when the
 hunks to check are those of a diff.
 */
module HunkCheck {
  import opened Texts
  import opened HunkRevert
  import opened WorktreePool
  import opened WorktreePoolSafety

  /** A file's merge-base text and its zero-context diff to HEAD's. */
  datatype FileDiff = FileDiff(base: string, head: string, hunks: seq<Hunk>)

  predicate IsFileDiff(d: FileDiff) {
    IsDiff(SplitLines(d.base), SplitLines(d.head), d.hunks) && Gapped(d.hunks)
  }

  /** The item collect() makes of the k-th hunk. */
  function ItemOf(path: string, d: FileDiff, k: nat): Item
    requires k < |d.hunks|
  {
    Item(path, d.head, Revert(d.head, d.base, d.hunks[k]))
  }

  /** HEAD's text with the k-th hunk alone put back: its lines are the base's again, and the
      other hunks make up the diff that is left. */
  ghost predicate LacksHunk(d: FileDiff, k: nat, text: string)
    requires k < |d.hunks|
  {
    var hunk := d.hunks[k];
    && 0 <= OldAt(hunk) && OldEnd(hunk) <= |SplitLines(d.base)|
    && 0 <= NewAt(hunk) && NewEnd(hunk) <= |SplitLines(d.head)|
    && SplitLines(text) == RevertedLines(SplitLines(d.base), SplitLines(d.head), hunk)
    && IsDiff(SplitLines(d.base), SplitLines(text),
              d.hunks[..k] + Shift(d.hunks[k + 1..], hunk.oldCount - hunk.newCount))
  }

  /** The files are HEAD's but for one, which lacks the hunk. */
  ghost predicate ShowsWithout(c: Config, files: Files, path: string, d: FileDiff, k: nat)
    requires k < |d.hunks|
  {
    && files.Keys == c.head.Keys && path in files
    && (forall other | other in c.head && other != path :: files[other] == c.head[other])
    && LacksHunk(d, k, files[path])
  }

  lemma RevertedLacksHunk(d: FileDiff, k: nat)
    requires IsFileDiff(d) && k < |d.hunks|
    ensures LacksHunk(d, k, Revert(d.head, d.base, d.hunks[k]))
  {
    hide SplitLines, IsDiff, Gapped, Shift, Revert, OldAt, OldEnd, NewAt, NewEnd, RevertedLines;
    RevertExact(d.head, d.base, d.hunks, k);
    RevertLeavesTheOthers(d.head, d.base, d.hunks, k);
  }

  lemma HunkPutBack(c: Config, i: nat, path: string, d: FileDiff, k: nat)
    requires WellFormed(c) && i < |c.items| && IsFileDiff(d) && k < |d.hunks|
    requires c.items[i] == ItemOf(path, d, k)
    ensures ShowsWithout(c, WithHunk(c, i), path, d, k)
  {
    hide LacksHunk, IsFileDiff, Revert;
    RevertedLacksHunk(d, k);
  }

  lemma TreeUnderTest(c: Config, states: seq<State>, steps: seq<Step>, n: nat, w: nat)
    requires WellFormed(c) && Run(c, states, steps) && n < |states|
    requires w < |states[n].workers| && states[n].workers[w].Running?
    ensures var s, phase := states[n], states[n].workers[w];
            && phase.item < |c.items| && phase.tree < |s.trees| && phase.proc < |s.procs|
            && s.procs[phase.proc].files == s.trees[phase.tree] == WithHunk(c, phase.item)
  {
    RunIsGood(c, states, steps, n);
    hide Run, WellFormed;
    assert TreeState(c, states[n], states[n].workers[w]);
  }

  /** While a worker's tests run, every other file of its tree is HEAD's, and against the merge
      base its own file lacks exactly that hunk: its lines are swapped back, the other hunks
      are all there. */
  lemma TreeLacksOneHunk(
      c: Config, states: seq<State>, steps: seq<Step>, n: nat, w: nat, path: string, d: FileDiff, k: nat)
    requires WellFormed(c) && Run(c, states, steps) && n < |states|
    requires w < |states[n].workers| && states[n].workers[w].Running?
    requires IsFileDiff(d) && k < |d.hunks|
    requires states[n].workers[w].item < |c.items| && c.items[states[n].workers[w].item] == ItemOf(path, d, k)
    ensures var s, phase := states[n], states[n].workers[w];
            && phase.tree < |s.trees| && phase.proc < |s.procs|
            && s.procs[phase.proc].files == s.trees[phase.tree]
            && ShowsWithout(c, s.trees[phase.tree], path, d, k)
  {
    hide Run, WellFormed, ShowsWithout, IsFileDiff, ItemOf;
    TreeUnderTest(c, states, steps, n, w);
    HunkPutBack(c, states[n].workers[w].item, path, d, k);
  }
}
