/**
 * Two small threads that show where a placeholder goes among its siblings.
 * Below the top, a placeholder is attached during the walk that creates it,
 * so it can come before a comment that the input lists later. Among the
 * replies the result starts from, the memo order counts instead: every
 * parentless or top-level comment first, the placeholders after.
 */
module SiblingOrder {
  import opened Optional
  import opened Comments
  import opened CommentPaths
  import opened CommentInput
  import opened CommentSteps

  function Reply(id: int, path: seq<int>): CommentModel {
    CommentModel(id, path, |path| - 1, None, "", false, false)
  }

  /** Reply 4 below the missing 2, then the top-level comment 1. */
  function NestedThread(): seq<CommentModel> {
    [Reply(4, [0, 2, 4]), Reply(1, [0, 1])]
  }

  /** The same shape below the ancestor 9, which is missing too. */
  function AncestorThread(): seq<CommentModel> {
    [Reply(4, [0, 9, 2, 4]), Reply(1, [0, 9, 1])]
  }

  /** The whole thread is well formed, and the walk from 4 reaches the missing 2. */
  lemma NestedShape()
    ensures WellFormed(NestedThread()) && Climbs(NestedThread(), None, NestedThread()[0].path, 1)
  {
    var cs := NestedThread();
    NestedPaths();
    assert forall i | 0 <= i < |cs| :: cs[i].id != 2;
  }

  /** The paths of the whole thread agree wherever they share an id. */
  lemma NestedPaths()
    ensures WellFormed(NestedThread())
  {
    var ps := Paths(NestedThread());
    assert ps == [[0, 2, 4], [0, 1]];
    forall a, b, i, j | 0 <= a < |ps| && 0 <= b < |ps| && 0 <= i < |ps[a]| && 0 <= j < |ps[b]|
      ensures AgreeAt(ps, a, b, i, j)
    {
      if ps[a][i] == ps[b][j] {
        assert i == j && (a == b || i < 1);
      }
    }
  }

  /** The thread below 9 is well formed, and the walk from 4 reaches the missing 2. */
  lemma AncestorShape()
    ensures WellFormed(AncestorThread()) && Climbs(AncestorThread(), Some(9), AncestorThread()[0].path, 2)
  {
    var cs := AncestorThread();
    AncestorPaths();
    assert forall i | 0 <= i < |cs| :: cs[i].id != 2;
  }

  /** The paths of the thread below 9 agree wherever they share an id. */
  lemma AncestorPaths()
    ensures WellFormed(AncestorThread())
  {
    var ps := Paths(AncestorThread());
    assert ps == [[0, 9, 2, 4], [0, 9, 1]];
    forall a, b, i, j | 0 <= a < |ps| && 0 <= b < |ps| && 0 <= i < |ps[a]| && 0 <= j < |ps[b]|
      ensures AgreeAt(ps, a, b, i, j)
    {
      if ps[a][i] == ps[b][j] {
        assert i == j && (a == b || i < 2);
      }
    }
  }

  /** In the whole thread, 2 and 1 are siblings below 0, with keys 0 and 1. */
  lemma NestedKeys()
    ensures Mentioned(Paths(NestedThread()), 2) && Mentioned(Paths(NestedThread()), 1)
    ensures SameParent(PathTo(Paths(NestedThread()), 2), PathTo(Paths(NestedThread()), 1))
    ensures SiblingKey(NestedThread(), None, 2) == 0 && SiblingKey(NestedThread(), None, 1) == 1
  {
    var cs := NestedThread();
    NestedShape();
    KeyOfFirstWalk(cs, None, 2, 1);
    KeyOfComment(cs, None, 1);
    assert cs[0].path[..2] == [0, 2];
  }

  /** Below 9, 2 and 1 are siblings at the top, with keys 2 and 1. */
  lemma AncestorKeys()
    ensures Mentioned(Paths(AncestorThread()), 2) && Mentioned(Paths(AncestorThread()), 1)
    ensures SameParent(PathTo(Paths(AncestorThread()), 2), PathTo(Paths(AncestorThread()), 1))
    ensures SiblingKey(AncestorThread(), Some(9), 2) == 2 && SiblingKey(AncestorThread(), Some(9), 1) == 1
  {
    var cs := AncestorThread();
    AncestorShape();
    KeyOfFirstWalk(cs, Some(9), 2, 2);
    KeyOfComment(cs, Some(9), 1);
    assert cs[0].path[..3] == [0, 9, 2];
  }

  /** A comment's key is its position in the input, at every depth. */
  lemma KeyOfComment(cs: seq<CommentModel>, rootId: Option<int>, k: int)
    requires WellFormed(cs) && 0 <= k < |cs|
    ensures Mentioned(Paths(cs), cs[k].id) && PathTo(Paths(cs), cs[k].id) == cs[k].path
    ensures SiblingKey(cs, rootId, cs[k].id) == k
  {
    RankOfDistinct(cs);
    PathOnInput(cs, k, |cs[k].path| - 1);
    assert cs[k].path[..|cs[k].path|] == cs[k].path;
  }

  /**
   * A placeholder that the walk from the first comment creates has key 0
   * below the top, and comes after every comment at the top.
   */
  lemma KeyOfFirstWalk(cs: seq<CommentModel>, rootId: Option<int>, x: int, t: int)
    requires WellFormed(cs) && |cs| > 0 && 0 <= t < |cs[0].path| - 1 && cs[0].path[t] == x
    requires Climbs(cs, rootId, cs[0].path, t)
    ensures Mentioned(Paths(cs), x) && PathTo(Paths(cs), x) == cs[0].path[..t + 1]
    ensures SiblingKey(cs, rootId, x) == if TopLevel(cs[0].path[..t + 1], rootId) then |cs| else 0
  {
    RankOfDistinct(cs);
    assert x !in InputIds(cs);
    assert CreatedBy(cs, rootId, 0, x);
    PathOnInput(cs, 0, t);
  }

  /** Of two siblings in a listing in thread order, the one with the lower key comes first. */
  lemma OrderedByKeys(cs: seq<CommentModel>, rootId: Option<int>, L: seq<int>, i: int, j: int)
    requires SiblingsInThreadOrder(cs, rootId, L)
    requires 0 <= i < |L| && 0 <= j < |L| && i != j
    requires Mentioned(Paths(cs), L[i]) && Mentioned(Paths(cs), L[j])
    requires SameParent(PathTo(Paths(cs), L[i]), PathTo(Paths(cs), L[j]))
    requires SiblingKey(cs, rootId, L[i]) < SiblingKey(cs, rootId, L[j])
    ensures i < j
  {
    assert ThreadOrderAt(cs, rootId, L, j, i);
  }

  /**
   * In the whole thread, the placeholder 2 created by the walk from 4 comes
   * before the comment 1 in any sibling order the model allows.
   */
  lemma PlaceholderBeforeLaterComment(L: seq<int>, i: int, j: int)
    requires SiblingsInThreadOrder(NestedThread(), None, L)
    requires 0 <= i < |L| && 0 <= j < |L| && L[i] == 2 && L[j] == 1
    ensures i < j
  {
    NestedKeys();
    OrderedByKeys(NestedThread(), None, L, i, j);
  }

  /**
   * Below the ancestor 9 the same placeholder comes after the comment 1,
   * because the memo lists the placeholders after the comments.
   */
  lemma TopLevelPlaceholderLast(L: seq<int>, i: int, j: int)
    requires SiblingsInThreadOrder(AncestorThread(), Some(9), L)
    requires 0 <= i < |L| && 0 <= j < |L| && L[i] == 2 && L[j] == 1
    ensures j < i
  {
    AncestorKeys();
    OrderedByKeys(AncestorThread(), Some(9), L, j, i);
  }

  /** A parentless comment 5, then the reply 3 to the post, whose root 0 is missing. */
  function ParentlessThread(): seq<CommentModel> {
    [Reply(5, [5]), Reply(3, [0, 3])]
  }

  /** The thread is well formed; only the walk from 3 reaches the missing 0. */
  lemma ParentlessShape()
    ensures WellFormed(ParentlessThread()) && Climbs(ParentlessThread(), None, ParentlessThread()[1].path, 0)
    ensures !CreatedBy(ParentlessThread(), None, 0, 0)
  {
    var cs := ParentlessThread();
    ParentlessPaths();
    assert forall i | 0 <= i < |cs| :: cs[i].id != 0;
  }

  /** The paths of the parentless thread agree wherever they share an id. */
  lemma ParentlessPaths()
    ensures WellFormed(ParentlessThread())
  {
    var ps := Paths(ParentlessThread());
    assert ps == [[5], [0, 3]];
    forall a, b, i, j | 0 <= a < |ps| && 0 <= b < |ps| && 0 <= i < |ps[a]| && 0 <= j < |ps[b]|
      ensures AgreeAt(ps, a, b, i, j)
    {
      if ps[a][i] == ps[b][j] {
        assert i == j && (a == b || i < 0);
      }
    }
  }

  /**
   * 5 and the placeholder 0 are siblings at the top, 3 lies below 0, and
   * the keys are 0 for 5 and 3 for 0, created at step 1 and stored after
   * both comments.
   */
  lemma ParentlessKeys()
    ensures Mentioned(Paths(ParentlessThread()), 5) && Mentioned(Paths(ParentlessThread()), 0)
    ensures Mentioned(Paths(ParentlessThread()), 3)
    ensures IsPrefix(PathTo(Paths(ParentlessThread()), 0), PathTo(Paths(ParentlessThread()), 3))
    ensures SameParent(PathTo(Paths(ParentlessThread()), 5), PathTo(Paths(ParentlessThread()), 0))
    ensures SiblingKey(ParentlessThread(), None, 5) == 0 && SiblingKey(ParentlessThread(), None, 0) == 3
  {
    var cs := ParentlessThread();
    ParentlessShape();
    KeyOfComment(cs, None, 0);
    KeyOfComment(cs, None, 1);
    ParentlessPlaceholderKey();
  }

  /** The placeholder 0 sits at the top with key 3: two comments, then step 1. */
  lemma ParentlessPlaceholderKey()
    ensures Mentioned(Paths(ParentlessThread()), 0) && PathTo(Paths(ParentlessThread()), 0) == [0]
    ensures SiblingKey(ParentlessThread(), None, 0) == 3
  {
    var cs := ParentlessThread();
    ParentlessShape();
    ParentlessCreated();
    RankOfDistinct(cs);
    PathOnInput(cs, 1, 0);
    assert cs[1].path[..1] == [0];
  }

  /** The placeholder 0 is not an input comment and is created at step 1. */
  lemma ParentlessCreated()
    ensures 0 !in InputIds(ParentlessThread()) && FirstStep(ParentlessThread(), None, 0, 0) == 1
  {
    var cs := ParentlessThread();
    ParentlessShape();
    assert CreatedBy(cs, None, 1, 0);
  }

  /**
   * The parentless comment 5 comes before the reply 3 in any listing whose
   * subtrees are in thread order, though 5 and 3 are not siblings: the
   * subtree of 0 is placed by the key of 0.
   */
  lemma ParentlessBeforePostReplies(L: seq<int>, i: int, j: int)
    requires SubtreesInThreadOrder(ParentlessThread(), None, L)
    requires 0 <= i < |L| && 0 <= j < |L| && L[i] == 5 && L[j] == 3
    ensures i < j
  {
    ParentlessKeys();
    assert SubtreeOrderAt(ParentlessThread(), None, L, i, j, 5, 0);
  }
}
