/**
 * Where `sortToNestedOrder` puts each reply among its siblings, told from
 * the input alone. The linking pass handles the comments in input order;
 * the walk up from comment `k` creates a placeholder for every missing id
 * it passes, and every node is appended to its parent's replies during the
 * step that links it: an input comment at its own step, a placeholder at
 * the step whose walk created it. The replies the result starts from are
 * gathered from the memo instead, in insertion order: the input comments
 * first, in input order, then the placeholders in the order they were
 * created.
 */
module CommentSteps {
  import opened Optional
  import opened Comments
  import opened CommentPaths
  import opened CommentInput

  /**
   * A node with path `p` is one of the replies the result starts from: a
   * top-level comment of the thread, or a direct reply to the ancestor.
   */
  predicate TopLevel(p: seq<int>, rootId: Option<int>) {
    if rootId.None? then |p| == 1 else |p| >= 2 && p[|p| - 2] == rootId.value
  }

  /** The depth of the replies the result starts from. */
  ghost function TopDepth(cs: seq<CommentModel>, rootId: Option<int>): nat {
    if rootId.None? then 1
    else if Mentioned(Paths(cs), rootId.value) then |PathTo(Paths(cs), rootId.value)| + 1
    else 0
  }

  /**
   * Walking up path `p` from its last id reaches index `t` when nothing
   * stops it on the way: the comment is not the ancestor, every id from `t`
   * up to the comment's parent is missing from the input, and the walk
   * passes no ancestor before `t`.
   */
  ghost predicate Climbs(cs: seq<CommentModel>, rootId: Option<int>, p: seq<int>, t: int)
    requires 0 <= t < |p| - 1
  {
    && Some(Last(p)) != rootId
    && (forall s | t <= s < |p| - 1 :: p[s] !in InputIds(cs))
    && (forall s | t < s < |p| - 1 :: Some(p[s]) != rootId)
  }

  /** The walk up from comment `k` would reach `x`, were no placeholder there yet. */
  ghost predicate CreatedBy(cs: seq<CommentModel>, rootId: Option<int>, k: int, x: int) {
    0 <= k < |cs|
    && exists t :: 0 <= t < |cs[k].path| - 1 && cs[k].path[t] == x && Climbs(cs, rootId, cs[k].path, t)
  }

  /** The first step from `k` on whose walk reaches `x`; `|cs|` when there is none. */
  ghost function FirstStep(cs: seq<CommentModel>, rootId: Option<int>, x: int, k: nat): (r: nat)
    ensures r <= |cs|
    decreases |cs| - k
  {
    if k >= |cs| then |cs|
    else if CreatedBy(cs, rootId, k, x) then k
    else FirstStep(cs, rootId, x, k + 1)
  }

  /** The step at which the linking pass attaches `x` to its parent. */
  ghost function LinkStep(cs: seq<CommentModel>, rootId: Option<int>, x: int): int {
    if x in Rank(cs) then Rank(cs)[x] else FirstStep(cs, rootId, x, 0)
  }

  /** Where `x` is inserted into the memo: the comments first, then the placeholders by creation. */
  ghost function InsertKey(cs: seq<CommentModel>, rootId: Option<int>, x: int): int {
    if x in Rank(cs) then Rank(cs)[x] else |cs| + FirstStep(cs, rootId, x, 0)
  }

  /** What orders `x` among its siblings in the result. */
  ghost function SiblingKey(cs: seq<CommentModel>, rootId: Option<int>, x: int): int
    requires Mentioned(Paths(cs), x)
  {
    if TopLevel(PathTo(Paths(cs), x), rootId) then InsertKey(cs, rootId, x) else LinkStep(cs, rootId, x)
  }

  /** Every id the paths mention. */
  ghost function MentionedIds(ps: seq<seq<int>>): set<int> {
    set a, t | 0 <= a < |ps| && 0 <= t < |ps[a]| :: ps[a][t]
  }

  ghost function Steps(cs: seq<CommentModel>, rootId: Option<int>): map<int, int> {
    map x | x in MentionedIds(Paths(cs)) :: LinkStep(cs, rootId, x)
  }

  ghost function Inserts(cs: seq<CommentModel>, rootId: Option<int>): map<int, int> {
    map x | x in MentionedIds(Paths(cs)) :: InsertKey(cs, rootId, x)
  }

  ghost function SiblingKeys(cs: seq<CommentModel>, rootId: Option<int>): map<int, int> {
    map x | x in MentionedIds(Paths(cs)) :: SiblingKey(cs, rootId, x)
  }

  /** Of two siblings listed in `L`, the first has the lower key. */
  ghost predicate SiblingsInThreadOrder(cs: seq<CommentModel>, rootId: Option<int>, L: seq<int>) {
    forall i, j {:trigger ThreadOrderAt(cs, rootId, L, i, j)} | 0 <= i < |L| && 0 <= j < |L| :: ThreadOrderAt(cs, rootId, L, i, j)
  }

  ghost predicate ThreadOrderAt(cs: seq<CommentModel>, rootId: Option<int>, L: seq<int>, i: int, j: int)
    requires 0 <= i < |L| && 0 <= j < |L|
  {
    var ps := Paths(cs);
    i < j && Mentioned(ps, L[i]) && Mentioned(ps, L[j]) && SameParent(PathTo(ps, L[i]), PathTo(ps, L[j]))
    ==> SiblingKey(cs, rootId, L[i]) < SiblingKey(cs, rootId, L[j])
  }

  /**
   * Of two entries of `L` at or below two siblings `a` and `b`, the one under
   * the sibling with the lower key comes first. The siblings need not be
   * listed: the subtree of the post-level root 0, say, goes where the key of
   * 0 puts it among the comments that start a thread.
   */
  ghost predicate SubtreesInThreadOrder(cs: seq<CommentModel>, rootId: Option<int>, L: seq<int>) {
    forall i, j, a, b {:trigger SubtreeOrderAt(cs, rootId, L, i, j, a, b)} | 0 <= i < |L| && 0 <= j < |L| ::
      SubtreeOrderAt(cs, rootId, L, i, j, a, b)
  }

  ghost predicate SubtreeOrderAt(cs: seq<CommentModel>, rootId: Option<int>, L: seq<int>, i: int, j: int, a: int, b: int)
    requires 0 <= i < |L| && 0 <= j < |L|
  {
    var ps := Paths(cs);
    Mentioned(ps, L[i]) && Mentioned(ps, L[j]) && Mentioned(ps, a) && Mentioned(ps, b)
    && IsPrefix(PathTo(ps, a), PathTo(ps, L[i])) && IsPrefix(PathTo(ps, b), PathTo(ps, L[j]))
    && SameParent(PathTo(ps, a), PathTo(ps, b))
    && SiblingKey(cs, rootId, a) < SiblingKey(cs, rootId, b)
    ==> i < j
  }

  lemma MentionedIn(ps: seq<seq<int>>, x: int)
    requires Mentioned(ps, x)
    ensures x in MentionedIds(ps)
  {
    var a, t :| 0 <= a < |ps| && 0 <= t < |ps[a]| && ps[a][t] == x;
  }

  /** No step before the first one found reaches `x`, and that one does. */
  lemma {:induction false} FirstStepLeast(cs: seq<CommentModel>, rootId: Option<int>, x: int, k: nat, j: int)
    requires k <= j < |cs| && CreatedBy(cs, rootId, j, x)
    ensures FirstStep(cs, rootId, x, k) <= j
    decreases j - k
  {
    if !CreatedBy(cs, rootId, k, x) {
      FirstStepLeast(cs, rootId, x, k + 1, j);
    }
  }

  lemma {:induction false} FirstStepFound(cs: seq<CommentModel>, rootId: Option<int>, x: int, k: nat)
    requires FirstStep(cs, rootId, x, k) < |cs|
    ensures k <= FirstStep(cs, rootId, x, k) && CreatedBy(cs, rootId, FirstStep(cs, rootId, x, k), x)
    decreases |cs| - k
  {
    if !CreatedBy(cs, rootId, k, x) {
      FirstStepFound(cs, rootId, x, k + 1);
    }
  }

  /** The id a walk reaches lies strictly above the comment it starts from, on that comment's path. */
  lemma CreatedPath(cs: seq<CommentModel>, rootId: Option<int>, k: int, x: int) returns (t: int)
    requires WellFormed(cs) && CreatedBy(cs, rootId, k, x)
    ensures 0 <= t < |cs[k].path| - 1 && cs[k].path[t] == x && Climbs(cs, rootId, cs[k].path, t)
    ensures Mentioned(Paths(cs), x) && PathTo(Paths(cs), x) == cs[k].path[..t + 1]
  {
    t :| 0 <= t < |cs[k].path| - 1 && cs[k].path[t] == x && Climbs(cs, rootId, cs[k].path, t);
    PathOnInput(cs, k, t);
  }

  /** The path of an id on an input path is the prefix of that path ending in it. */
  lemma PathOnInput(cs: seq<CommentModel>, k: int, t: int)
    requires WellFormed(cs) && 0 <= k < |cs| && 0 <= t < |cs[k].path|
    ensures Mentioned(Paths(cs), cs[k].path[t]) && PathTo(Paths(cs), cs[k].path[t]) == cs[k].path[..t + 1]
  {
    var ps, p := Paths(cs), cs[k].path;
    InputPath(cs, k);
    TriePrefix(ps, p, t + 1);
    TrieMentioned(ps, p, t);
    TrieUnique(ps, PathTo(ps, p[t]), p[..t + 1]);
  }

  /** All the replies the result starts from lie at one depth. */
  lemma TopLevelDepth(cs: seq<CommentModel>, rootId: Option<int>, p: seq<int>)
    requires WellFormed(cs) && InTrie(Paths(cs), p)
    ensures TopLevel(p, rootId) ==> |p| == TopDepth(cs, rootId)
  {
    if rootId.Some? && TopLevel(p, rootId) {
      var ps := Paths(cs);
      TrieMentioned(ps, p, |p| - 2);
      TriePrefix(ps, p, |p| - 1);
      TrieUnique(ps, PathTo(ps, rootId.value), p[..|p| - 1]);
    }
  }

  /**
   * Two different siblings that the pass attaches have different keys:
   * two comments differ in position, a comment comes before every
   * placeholder in the memo, a walk reaches one id per depth, and the walk
   * from a comment reaches only ids above it.
   */
  lemma SiblingKeysDistinct(cs: seq<CommentModel>, rootId: Option<int>, x: int, y: int)
    requires WellFormed(cs) && Mentioned(Paths(cs), x) && Mentioned(Paths(cs), y)
    requires SameParent(PathTo(Paths(cs), x), PathTo(Paths(cs), y))
    requires x in InputIds(cs) || FirstStep(cs, rootId, x, 0) < |cs|
    requires y in InputIds(cs) || FirstStep(cs, rootId, y, 0) < |cs|
    ensures SiblingKey(cs, rootId, x) == SiblingKey(cs, rootId, y) ==> x == y
  {
    SiblingsTopLevel(PathTo(Paths(cs), x), PathTo(Paths(cs), y), rootId);
    if x in InputIds(cs) && y in InputIds(cs) {
      StepsOfComments(cs, x, y);
    } else if x in InputIds(cs) {
      StepBelowComment(cs, rootId, x, y);
    } else if y in InputIds(cs) {
      StepBelowComment(cs, rootId, y, x);
    } else {
      StepsOfPlaceholders(cs, rootId, x, y);
    }
  }

  /** The replies the result starts from are siblings. */
  lemma TopLevelSiblings(cs: seq<CommentModel>, rootId: Option<int>, p: seq<int>, q: seq<int>)
    requires WellFormed(cs) && InTrie(Paths(cs), p) && InTrie(Paths(cs), q)
    requires TopLevel(p, rootId) && TopLevel(q, rootId)
    ensures SameParent(p, q)
  {
    if rootId.Some? {
      TrieAgree(Paths(cs), p, q, |p| - 2, |q| - 2);
    }
  }

  /** Siblings are both among the replies the result starts from, or neither is. */
  lemma SiblingsTopLevel(p: seq<int>, q: seq<int>, rootId: Option<int>)
    requires SameParent(p, q)
    ensures TopLevel(p, rootId) == TopLevel(q, rootId)
  {
    if |p| >= 2 {
      assert p[|p| - 2] == p[..|p| - 1][|p| - 2] == q[..|q| - 1][|q| - 2] == q[|q| - 2];
    }
  }

  /** Two comments at the same position are the same comment. */
  lemma StepsOfComments(cs: seq<CommentModel>, x: int, y: int)
    requires WellFormed(cs) && x in InputIds(cs) && y in InputIds(cs)
    ensures x in Rank(cs) && y in Rank(cs) && (Rank(cs)[x] == Rank(cs)[y] ==> x == y)
  {
    RankOfDistinct(cs);
    var a :| 0 <= a < |cs| && cs[a].id == x;
    var b :| 0 <= b < |cs| && cs[b].id == y;
  }

  /** Two placeholders at one depth that one walk creates are the same placeholder. */
  lemma StepsOfPlaceholders(cs: seq<CommentModel>, rootId: Option<int>, x: int, y: int)
    requires WellFormed(cs) && Mentioned(Paths(cs), x) && Mentioned(Paths(cs), y)
    requires x !in InputIds(cs) && y !in InputIds(cs)
    requires FirstStep(cs, rootId, x, 0) < |cs| && FirstStep(cs, rootId, y, 0) < |cs|
    requires |PathTo(Paths(cs), x)| == |PathTo(Paths(cs), y)|
    ensures x !in Rank(cs) && y !in Rank(cs)
    ensures FirstStep(cs, rootId, x, 0) == FirstStep(cs, rootId, y, 0) ==> x == y
  {
    RankOfDistinct(cs);
    FirstStepFound(cs, rootId, x, 0);
    FirstStepFound(cs, rootId, y, 0);
    var kx, ky := FirstStep(cs, rootId, x, 0), FirstStep(cs, rootId, y, 0);
    var tx := CreatedPath(cs, rootId, kx, x);
    var ty := CreatedPath(cs, rootId, ky, y);
    if kx == ky {
      assert tx == ty;
    }
  }
  /** A comment and a sibling placeholder are not attached at the same step. */
  lemma StepBelowComment(cs: seq<CommentModel>, rootId: Option<int>, x: int, y: int)
    requires WellFormed(cs) && x in InputIds(cs) && y !in InputIds(cs)
    requires Mentioned(Paths(cs), x) && Mentioned(Paths(cs), y) && FirstStep(cs, rootId, y, 0) < |cs|
    requires |PathTo(Paths(cs), x)| == |PathTo(Paths(cs), y)|
    ensures x in Rank(cs) && y !in Rank(cs) && Rank(cs)[x] != FirstStep(cs, rootId, y, 0) && Rank(cs)[x] < |cs|
  {
    RankOfDistinct(cs);
    var a :| 0 <= a < |cs| && cs[a].id == x;
    FirstStepFound(cs, rootId, y, 0);
    var k := FirstStep(cs, rootId, y, 0);
    var t := CreatedPath(cs, rootId, k, y);
    InputPath(cs, a);
    assert |PathTo(Paths(cs), x)| == |cs[a].path|;
    assert |PathTo(Paths(cs), y)| < |cs[k].path|;
    assert Rank(cs)[x] == a;
  }
}
