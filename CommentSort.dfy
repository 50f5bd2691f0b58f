/**
 * `sortToNestedOrder` end to end: fill the memo, link every comment, join the
 * forest under one root, linearise it and turn the nodes back into comments.
 */
module CommentSort {
  import opened Optional
  import opened Comments
  import opened CommentPaths
  import opened CommentNodes
  import opened CommentPreorder
  import opened CommentForest
  import opened CommentTree
  import opened CommentInput
  import opened CommentSteps

  /**
   * `linearize`: appends to `list` the id of `node`, unless it is 0, and then
   * the linearisation of each child in turn, which is `PreorderOf`.
   */
  method Linearize(memo: Memo, node: CommentNode, list: NodeList, ghost bound: nat)
    requires Tree(memo.nodes, bound) && Fits(memo.nodes, node, bound)
    modifies list
    ensures list.items == old(list.items) + PreorderOf(memo.nodes, node, bound)
    decreases bound - |node.Path()|, 1
  {
    if node.Id() != 0 {
      list.Add(node.Id());
    }
    LinearizeChildren(memo, node, list, bound);
    PreorderOfParts(memo.nodes, node, bound);
  }

  /** The loop of `linearize` over the children of `node`. */
  method LinearizeChildren(memo: Memo, node: CommentNode, list: NodeList, ghost bound: nat)
    requires Tree(memo.nodes, bound) && Fits(memo.nodes, node, bound)
    modifies list
    ensures Below(memo.nodes, node.children, |node.Path()|)
    ensures list.items == old(list.items) + PreorderAll(memo.nodes, node.children, |node.Path()|, bound)
    decreases bound - |node.Path()|, 0
  {
    ghost var nodes := memo.nodes;
    ghost var start := list.items;
    ChildrenBelow(nodes, node, bound);
    for i := 0 to |node.children|
      invariant memo.nodes == nodes
      invariant list.items == start + PreorderAll(nodes, node.children[..i], |node.Path()|, bound)
    {
      ChildStep(nodes, node, bound, i);
      ghost var done := PreorderAll(nodes, node.children[..i], |node.Path()|, bound);
      Linearize(memo, memo.nodes[node.children[i]], list, bound);
    }
    assert node.children[..|node.children|] == node.children;
  }

  /**
   * Linearising child `i` after the children before it: the child fits,
   * lies deeper than its parent and within the bound, and extends the
   * linearisation of the children before it by its own.
   */
  lemma ChildStep(nodes: map<int, CommentNode>, n: CommentNode, bound: nat, i: nat)
    requires Tree(nodes, bound) && Fits(nodes, n, bound) && i < |n.children|
    ensures n.children[i] in nodes && Fits(nodes, nodes[n.children[i]], bound)
    ensures |n.Path()| < |nodes[n.children[i]].Path()| <= bound
    ensures Below(nodes, n.children[..i], |n.Path()|) && Below(nodes, n.children[..i + 1], |n.Path()|)
    ensures PreorderAll(nodes, n.children[..i + 1], |n.Path()|, bound)
            == PreorderAll(nodes, n.children[..i], |n.Path()|, bound) + PreorderOf(nodes, nodes[n.children[i]], bound)
  {
    var c := n.children[i];
    assert ChildAt(nodes, n, i);
    assert FitsAt(nodes, c, bound);
    ChildrenBelow(nodes, n, bound);
    PreorderAllSnoc(nodes, n.children, i, |n.Path()|, bound);
  }

  /** The linearisation of a node: its own id, unless 0, then those of all its children. */
  lemma PreorderOfParts(nodes: map<int, CommentNode>, n: CommentNode, bound: nat)
    requires Tree(nodes, bound) && Fits(nodes, n, bound)
    ensures Below(nodes, n.children, |n.Path()|)
    ensures PreorderOf(nodes, n, bound)
            == (if n.Id() != 0 then [n.Id()] else []) + PreorderAll(nodes, n.children, |n.Path()|, bound)
  {
    FitsBelow(nodes, n, bound);
  }

  /** Every prefix of the children of a fitting node lies below it. */
  lemma ChildrenBelow(nodes: map<int, CommentNode>, n: CommentNode, bound: nat)
    requires Fits(nodes, n, bound)
    ensures forall i | 0 <= i <= |n.children| :: Below(nodes, n.children[..i], |n.Path()|)
    ensures Below(nodes, n.children, |n.Path()|)
  {
    FitsBelow(nodes, n, bound);
    forall i | 0 <= i <= |n.children| ensures Below(nodes, n.children[..i], |n.Path()|) {
      forall j | 0 <= j < i ensures n.children[..i][j] in nodes && |nodes[n.children[..i][j]].Path()| > |n.Path()| {
        assert n.children[..i][j] == n.children[j];
        assert ChildAt(nodes, n, j);
      }
    }
  }


  /** The ids of the comments from index `i` on: those the linking pass has not reached. */
  ghost function Waiting(cs: seq<CommentModel>, i: int): set<int> {
    set j | i <= j < |cs| && 0 <= j :: cs[j].id
  }

  function IdsOf(r: seq<CommentModel>): (ids: seq<int>)
    ensures |ids| == |r| && forall i | 0 <= i < |r| :: ids[i] == r[i].id
  {
    seq(|r|, i requires 0 <= i < |r| => r[i].id)
  }

  /** `a` is a proper ancestor of `b` in the tree the paths describe. */
  ghost predicate AncestorIn(ps: seq<seq<int>>, a: int, b: int) {
    Mentioned(ps, a) && Mentioned(ps, b) && StrictPrefix(PathTo(ps, a), PathTo(ps, b))
  }

  /**
   * `L` is in nested (pre-)order for the tree of `ps`: every comment comes
   * after all of its ancestors, and the replies below a comment, at any
   * depth, follow it without interruption.
   */
  ghost predicate NestedOrder(ps: seq<seq<int>>, L: seq<int>) {
    && (forall i, j {:trigger AncestorFirst(ps, L, i, j)} | 0 <= i < |L| && 0 <= j < |L| :: AncestorFirst(ps, L, i, j))
    && (forall i, j, m {:trigger SubtreeContiguous(ps, L, i, j, m)} | 0 <= i < j < m < |L| :: SubtreeContiguous(ps, L, i, j, m))
  }

  /** Of two entries of `L`, an ancestor comes first. */
  ghost predicate AncestorFirst(ps: seq<seq<int>>, L: seq<int>, i: int, j: int)
    requires 0 <= i < |L| && 0 <= j < |L|
  {
    AncestorIn(ps, L[i], L[j]) ==> i < j
  }

  /** Whatever lies between an entry of `L` and one of its descendants descends from it too. */
  ghost predicate SubtreeContiguous(ps: seq<seq<int>>, L: seq<int>, i: int, j: int, m: int)
    requires 0 <= i < j < m < |L|
  {
    AncestorIn(ps, L[i], L[m]) ==> AncestorIn(ps, L[i], L[j])
  }

  /**
   * Of two input comments that reply to the same comment (or both start a
   * thread), the one earlier in the input comes first in `L`.
   */
  ghost predicate SiblingsInInputOrder(cs: seq<CommentModel>, L: seq<int>) {
    forall a, b, i, j {:trigger InputOrderAt(cs, L, a, b, i, j)}
      | 0 <= a < b < |cs| && 0 <= i < |L| && 0 <= j < |L| :: InputOrderAt(cs, L, a, b, i, j)
  }

  ghost predicate InputOrderAt(cs: seq<CommentModel>, L: seq<int>, a: int, b: int, i: int, j: int)
    requires 0 <= a < b < |cs| && 0 <= i < |L| && 0 <= j < |L|
  {
    L[i] == cs[a].id && L[j] == cs[b].id && SameParent(cs[a].path, cs[b].path) ==> i < j
  }

  /**
   * The `map` at the end of `sortToNestedOrder`: an actual node gives back
   * its comment, a placeholder a removed comment with empty text.
   */
  function Materialize(n: CommentNode): (c: CommentModel)
    ensures c.id == n.Id()
    ensures n.Actual? ==> c == n.comment
    ensures n.Placeholder? ==> c.removed && c.text == ""
  {
    match n
    case Actual(comment, _, _) => comment
    case Placeholder(missing, _, _) => Tombstone(missing.id)
  }

  /**
   * The memo the first loop of `sortToNestedOrder` builds: one unlinked
   * actual node per comment, under its id, a later comment replacing an
   * earlier one with the same id.
   */
  ghost function MemoOf(cs: seq<CommentModel>): map<int, CommentNode> {
    if cs == [] then map[]
    else MemoOf(cs[..|cs| - 1])[cs[|cs| - 1].id := Actual(cs[|cs| - 1], [], None)]
  }

  /** The memo order after the first loop: each id where it first occurs. */
  ghost function FirstIds(cs: seq<CommentModel>): seq<int> {
    if cs == [] then []
    else
      var init := cs[..|cs| - 1];
      FirstIds(init) + (if cs[|cs| - 1].id in MemoOf(init) then [] else [cs[|cs| - 1].id])
  }

  /** The first loop of `sortToNestedOrder`. */
  method BuildMemo(cs: seq<CommentModel>) returns (memo: Memo)
    ensures fresh(memo) && memo.Keyed() && memo.nodes == MemoOf(cs) && memo.order == FirstIds(cs)
  {
    memo := new Memo();
    for i := 0 to |cs|
      invariant memo.Keyed() && memo.nodes == MemoOf(cs[..i]) && memo.order == FirstIds(cs[..i])
    {
      assert cs[..i + 1][..i] == cs[..i];
      memo.Put(cs[i].id, Actual(cs[i], [], None));
    }
    assert cs[..|cs|] == cs;
  }

  /** The memo has a key for each comment and no other. */
  lemma {:induction false} MemoOfKeys(cs: seq<CommentModel>)
    ensures MemoOf(cs).Keys == InputIds(cs)
  {
    if cs != [] {
      var init := cs[..|cs| - 1];
      MemoOfKeys(init);
      InputIdsSnoc(cs);
    }
  }

  /** With distinct ids every comment is stored, unlinked, under its own id. */
  lemma {:induction false} MemoOfDistinct(cs: seq<CommentModel>)
    requires forall i, j | 0 <= i < j < |cs| :: cs[i].id != cs[j].id
    ensures forall j | 0 <= j < |cs| :: cs[j].id in MemoOf(cs) && MemoOf(cs)[cs[j].id] == Actual(cs[j], [], None)
  {
    if cs != [] {
      var init := cs[..|cs| - 1];
      MemoOfDistinct(init);
      forall j | 0 <= j < |cs| ensures cs[j].id in MemoOf(cs) && MemoOf(cs)[cs[j].id] == Actual(cs[j], [], None) {
        if j < |cs| - 1 {
          assert init[j] == cs[j];
        }
      }
    }
  }

  /** With distinct ids the first loop inserts the ids in input order, which is rank order. */
  lemma {:induction false} FirstIdsRanked(cs: seq<CommentModel>)
    requires forall i, j | 0 <= i < j < |cs| :: cs[i].id != cs[j].id
    ensures FirstIds(cs) == IdsOf(cs) && RankedList(Rank(cs), FirstIds(cs))
  {
    if cs != [] {
      var init := cs[..|cs| - 1];
      FirstIdsRanked(init);
      MemoOfKeys(init);
      assert cs[|cs| - 1].id !in InputIds(init);
      assert IdsOf(cs) == IdsOf(init) + [cs[|cs| - 1].id];
    }
    RankOfDistinct(cs);
    var ids := IdsOf(cs);
    forall u, v | 0 <= u < v < |ids| ensures RankedAt(Rank(cs), ids, u, v) {
    }
  }

  /**
   * The memo once every comment is linked: well formed, every node with the
   * parent its path names, the input comments unchanged but for their links,
   * and every other node a placeholder.
   */
  ghost predicate Linked(nodes: map<int, CommentNode>, order: seq<int>, cs: seq<CommentModel>, rootId: Option<int>) {
    KeyedBy(nodes, order) && NodesValid(nodes, Paths(cs)) && AllSettled(nodes, rootId) && CommentsKept(nodes, cs)
  }

  /**
   * The input comments are in the memo unchanged but for their links, and
   * every other node is a placeholder.
   */
  ghost predicate CommentsKept(nodes: map<int, CommentNode>, cs: seq<CommentModel>) {
    && (forall j | 0 <= j < |cs| :: cs[j].id in nodes && nodes[cs[j].id].Bare() == Actual(cs[j], [], None))
    && (forall k | k in nodes && k !in InputIds(cs) :: nodes[k].Placeholder?)
  }

  /** A call that changes no comment and adds only placeholders keeps the comments. */
  lemma CommentsKeptStep(nodes0: map<int, CommentNode>, nodes: map<int, CommentNode>, cs: seq<CommentModel>)
    requires CommentsKept(nodes0, cs)
    requires forall k | k in nodes0 :: k in nodes && nodes[k].Bare() == nodes0[k].Bare()
    requires forall k | k in nodes && k !in nodes0 :: nodes[k].Placeholder?
    ensures CommentsKept(nodes, cs)
  {
    forall k | k in nodes && k !in InputIds(cs) ensures nodes[k].Placeholder? {
      if k in nodes0 {
        assert nodes0[k].Placeholder?;
        assert nodes[k].Bare() == nodes0[k].Bare();
      }
    }
  }

  /**
   * The second loop of `sortToNestedOrder`: links every comment of the memo
   * to its parent, creating placeholders for the parents it lacks. Afterwards
   * the memo is well formed and every node has the parent its path names,
   * the comments are unchanged but for their links, and every other node is
   * a placeholder; the placeholders are the ids some walk reaches; every
   * list of children is in the order of the steps that attached them, and
   * the memo order puts the comments first, in input order, and then the
   * placeholders in the order the steps created them.
   */
  method ConnectAll(memo: Memo, cs: seq<CommentModel>, ancestorId: Option<int>)
    requires WellFormed(cs)
    requires memo.Keyed() && memo.nodes == MemoOf(cs) && memo.order == FirstIds(cs)
    modifies memo
    ensures Linked(memo.nodes, memo.order, cs, ancestorId)
    ensures forall x :: x in memo.nodes <==> x in InputIds(cs) || FirstStep(cs, ancestorId, x, 0) < |cs|
    ensures RankedChildren(memo.nodes, Steps(cs, ancestorId)) && RankedList(Inserts(cs, ancestorId), memo.order)
  {
    ghost var ps, sm, im := Paths(cs), Steps(cs, ancestorId), Inserts(cs, ancestorId);
    InitiallyValid(cs, ancestorId);
    InitiallyRanked(cs, ancestorId);
    for i := 0 to |cs|
      invariant memo.Keyed() && NodesValid(memo.nodes, ps)
      invariant Waiting(cs, i) <= memo.nodes.Keys
      invariant LinkState(memo.nodes, Waiting(cs, i), ancestorId)
      invariant CommentsKept(memo.nodes, cs)
      invariant CreatedSoFar(memo.nodes, cs, ancestorId, i)
      invariant RankedChildren(memo.nodes, sm) && RankedList(im, memo.order)
    {
      assert cs[i].id in Waiting(cs, i);
      var node := memo.Get(cs[i].id);
      if node.Some? {
        WaitingStep(cs, i);
        RankStepReady(memo.nodes, memo.order, cs, i, ancestorId);
        ghost var nodes0, order0 := memo.nodes, memo.order;
        ghost var top: nat;
        top := ConnectNodesAndGeneratePlaceholders(memo, cs[i].path, cs[i].id, ancestorId, ps, Waiting(cs, i + 1));
        ConnectedKeepsComments(nodes0, order0, memo.nodes, memo.order, cs[i].path, cs[i].id, ancestorId, top);
        CommentsKeptStep(nodes0, memo.nodes, cs);
        CreatedStep(nodes0, order0, memo.nodes, memo.order, cs, i, ancestorId, top);
        ConnectedKeepsRanks(nodes0, order0, memo.nodes, memo.order, cs[i].path, cs[i].id, ancestorId, top,
                            sm, im, i, |cs| + i);
      }
    }
    assert Waiting(cs, |cs|) == {};
  }

  /** After `i` steps the memo holds the comments and the ids the walks of those steps reach. */
  ghost predicate CreatedSoFar(nodes: map<int, CommentNode>, cs: seq<CommentModel>, rootId: Option<int>, i: int) {
    forall x :: x in nodes <==> x in InputIds(cs) || FirstStep(cs, rootId, x, 0) < i
  }

  /** The memo the first loop builds is well formed, holds the comments and has nothing linked yet. */
  lemma InitiallyValid(cs: seq<CommentModel>, rootId: Option<int>)
    requires WellFormed(cs)
    ensures NodesValid(MemoOf(cs), Paths(cs)) && CommentsKept(MemoOf(cs), cs)
    ensures Waiting(cs, 0) == MemoOf(cs).Keys && LinkState(MemoOf(cs), Waiting(cs, 0), rootId)
  {
    MemoOfKeys(cs);
    MemoOfDistinct(cs);
    InitialNodes(MemoOf(cs), cs);
  }

  lemma InitialNodes(nodes: map<int, CommentNode>, cs: seq<CommentModel>)
    requires WellFormed(cs) && nodes.Keys == InputIds(cs)
    requires forall j | 0 <= j < |cs| :: cs[j].id in nodes && nodes[cs[j].id] == Actual(cs[j], [], None)
    ensures NodesValid(nodes, Paths(cs))
  {
    var ps := Paths(cs);
    forall k | k in nodes ensures NodeOk(nodes, ps, k) {
      var j :| 0 <= j < |cs| && cs[j].id == k;
      assert ps[j] == cs[j].path;
      TrieInput(ps, j);
    }
  }

  /** Before the linking pass nothing has children and the memo order is the input order. */
  lemma InitiallyRanked(cs: seq<CommentModel>, rootId: Option<int>)
    requires WellFormed(cs)
    ensures CreatedSoFar(MemoOf(cs), cs, rootId, 0)
    ensures RankedChildren(MemoOf(cs), Steps(cs, rootId)) && RankedList(Inserts(cs, rootId), FirstIds(cs))
  {
    MemoOfKeys(cs);
    MemoOfDistinct(cs);
    var nodes := MemoOf(cs);
    forall k | k in nodes ensures RankedNode(nodes, Steps(cs, rootId), k) {
      var j :| 0 <= j < |cs| && cs[j].id == k;
      assert nodes[k].children == [];
    }
    FirstIdsInserted(cs, rootId);
  }

  /** The comments the memo starts from are ranked by their insertion keys. */
  lemma FirstIdsInserted(cs: seq<CommentModel>, rootId: Option<int>)
    requires WellFormed(cs)
    ensures RankedList(Inserts(cs, rootId), FirstIds(cs))
  {
    FirstIdsRanked(cs);
    RankOfDistinct(cs);
    var ids, im := FirstIds(cs), Inserts(cs, rootId);
    forall u | 0 <= u < |ids| ensures ids[u] in im && im[ids[u]] == Rank(cs)[ids[u]] {
      assert ids[u] == cs[u].id;
      InputPath(cs, u);
      MentionedIn(Paths(cs), cs[u].id);
    }
    RankedListSame(Rank(cs), im, ids);
  }

  /**
   * When the pass reaches comment `i`, the comment has step `i`, every node
   * already attached has an earlier step, and every key in the memo comes
   * before the placeholders step `i` creates.
   */
  lemma RankStepReady(nodes: map<int, CommentNode>, order: seq<int>, cs: seq<CommentModel>, i: int, rootId: Option<int>)
    requires WellFormed(cs) && 0 <= i < |cs|
    requires NodesValid(nodes, Paths(cs)) && KeyedBy(nodes, order)
    requires LinkState(nodes, Waiting(cs, i), rootId) && CreatedSoFar(nodes, cs, rootId, i)
    ensures cs[i].id in Steps(cs, rootId) && Steps(cs, rootId)[cs[i].id] == i
    ensures forall k, u | k in nodes && 0 <= u < |nodes[k].children| ::
              nodes[k].children[u] in Steps(cs, rootId) && Steps(cs, rootId)[nodes[k].children[u]] < i
    ensures forall u | 0 <= u < |order| :: order[u] in Inserts(cs, rootId) && Inserts(cs, rootId)[order[u]] < |cs| + i
  {
    RankOfDistinct(cs);
    var ps, sm, im := Paths(cs), Steps(cs, rootId), Inserts(cs, rootId);
    InputPath(cs, i);
    MentionedIn(ps, cs[i].id);
    forall k, u | k in nodes && 0 <= u < |nodes[k].children|
      ensures nodes[k].children[u] in sm && sm[nodes[k].children[u]] < i
    {
      var x := nodes[k].children[u];
      assert NodeOk(nodes, ps, k);
      assert x in nodes[k].children;
      NodeMentioned(nodes, ps, x);
      if x in InputIds(cs) {
        var j :| 0 <= j < |cs| && cs[j].id == x;
        assert j >= i ==> x in Waiting(cs, i);
      }
    }
    forall u | 0 <= u < |order| ensures order[u] in im && im[order[u]] < |cs| + i {
      assert order[u] in order;
      NodeMentioned(nodes, ps, order[u]);
      if order[u] in InputIds(cs) {
        var j :| 0 <= j < |cs| && cs[j].id == order[u];
      }
    }
  }

  /** Every key of a well-formed memo is mentioned by the paths. */
  lemma NodeMentioned(nodes: map<int, CommentNode>, ps: seq<seq<int>>, x: int)
    requires NodesValid(nodes, ps) && x in nodes
    ensures Mentioned(ps, x) && x in MentionedIds(ps)
  {
    assert NodeOk(nodes, ps, x);
    TrieMentioned(ps, nodes[x].Path(), |nodes[x].Path()| - 1);
    MentionedIn(ps, x);
  }

  /**
   * Step `i` adds exactly the ids its walk reaches that no earlier walk
   * reached, and gives each the step `i`.
   */
  lemma CreatedStep(
    nodes0: map<int, CommentNode>, order0: seq<int>, nodes: map<int, CommentNode>, order: seq<int>,
    cs: seq<CommentModel>, i: int, rootId: Option<int>, top: nat)
    requires WellFormed(cs) && 0 <= i < |cs|
    requires Connected(nodes0, order0, nodes, order, cs[i].path, cs[i].id, rootId, top)
    requires CreatedSoFar(nodes0, cs, rootId, i)
    ensures CreatedSoFar(nodes, cs, rootId, i + 1)
    ensures forall x | x in nodes && x !in nodes0 ::
              x in Steps(cs, rootId) && Steps(cs, rootId)[x] == i && x in Inserts(cs, rootId) && Inserts(cs, rootId)[x] == |cs| + i
  {
    forall x | x in nodes && x !in nodes0
      ensures x !in InputIds(cs) && FirstStep(cs, rootId, x, 0) == i
      ensures x in Steps(cs, rootId) && Steps(cs, rootId)[x] == i && x in Inserts(cs, rootId) && Inserts(cs, rootId)[x] == |cs| + i
    {
      NewKeyCreated(nodes0, order0, nodes, order, cs, i, rootId, top, x);
    }
    forall x ensures x in nodes <==> x in InputIds(cs) || FirstStep(cs, rootId, x, 0) < i + 1 {
      if x !in nodes0 && x !in InputIds(cs) && FirstStep(cs, rootId, x, 0) < |cs| {
        FirstStepFound(cs, rootId, x, 0);
        if FirstStep(cs, rootId, x, 0) == i {
          ReachedIsKey(nodes0, order0, nodes, order, cs, i, rootId, top, x);
        }
      }
    }
  }

  /** A key step `i` adds is an id its walk reaches first, with step `i`. */
  lemma NewKeyCreated(
    nodes0: map<int, CommentNode>, order0: seq<int>, nodes: map<int, CommentNode>, order: seq<int>,
    cs: seq<CommentModel>, i: int, rootId: Option<int>, top: nat, x: int)
    requires WellFormed(cs) && 0 <= i < |cs|
    requires Connected(nodes0, order0, nodes, order, cs[i].path, cs[i].id, rootId, top)
    requires CreatedSoFar(nodes0, cs, rootId, i)
    requires x in nodes && x !in nodes0
    ensures x !in InputIds(cs) && FirstStep(cs, rootId, x, 0) == i
    ensures x in Steps(cs, rootId) && Steps(cs, rootId)[x] == i && x in Inserts(cs, rootId) && Inserts(cs, rootId)[x] == |cs| + i
  {
    var p := cs[i].path;
    var j :| top <= j < |p| - 1 && p[j] == x;
    assert Climbs(cs, rootId, p, j) by {
      assert Some(p[|p| - 1]) != rootId;
    }
    assert CreatedBy(cs, rootId, i, x);
    FirstStepLeast(cs, rootId, x, 0, i);
    RankOfDistinct(cs);
    PathOnInput(cs, i, j);
    MentionedIn(Paths(cs), x);
  }

  /** Every id step `i`'s walk reaches is a key afterwards. */
  lemma ReachedIsKey(
    nodes0: map<int, CommentNode>, order0: seq<int>, nodes: map<int, CommentNode>, order: seq<int>,
    cs: seq<CommentModel>, i: int, rootId: Option<int>, top: nat, x: int)
    requires WellFormed(cs) && 0 <= i < |cs|
    requires Connected(nodes0, order0, nodes, order, cs[i].path, cs[i].id, rootId, top)
    requires CreatedSoFar(nodes0, cs, rootId, i)
    requires CreatedBy(cs, rootId, i, x)
    ensures x in nodes
  {
    var p := cs[i].path;
    var t := CreatedPath(cs, rootId, i, x);
    if t >= top {
      assert x in (set j | top <= j < |p| - 1 :: p[j]);
    } else {
      assert Some(p[top]) != rootId;
      assert p[top - 1] in nodes0 && p[top - 1] !in InputIds(cs);
      ReachedVia(cs, rootId, i, t, top - 1);
    }
  }

  /**
   * When the walk of step `i` reaches index `t` and the id at index `s`
   * above it was created earlier, the id at `t` was created no later.
   */
  lemma ReachedVia(cs: seq<CommentModel>, rootId: Option<int>, i: int, t: int, s: int)
    requires WellFormed(cs) && 0 <= i < |cs| && 0 <= t <= s < |cs[i].path| - 1
    requires Climbs(cs, rootId, cs[i].path, t)
    requires FirstStep(cs, rootId, cs[i].path[s], 0) < |cs|
    ensures FirstStep(cs, rootId, cs[i].path[t], 0) <= FirstStep(cs, rootId, cs[i].path[s], 0)
  {
    var p, y := cs[i].path, cs[i].path[s];
    FirstStepFound(cs, rootId, y, 0);
    var k := FirstStep(cs, rootId, y, 0);
    var t' := CreatedPath(cs, rootId, k, y);
    PathOnInput(cs, i, s);
    assert |p[..s + 1]| == |cs[k].path[..t' + 1]|;
    ReachedAbove(cs, rootId, i, t, k, t');
    FirstStepLeast(cs, rootId, p[t], 0, k);
  }

  /**
   * When the walk of step `i` reaches index `t` through the id at index
   * `t'` of the path of comment `k`, the walk of step `k` reaches index `t`
   * too.
   */
  lemma ReachedAbove(cs: seq<CommentModel>, rootId: Option<int>, i: int, t: int, k: int, t': int)
    requires WellFormed(cs) && 0 <= i < |cs| && 0 <= k < |cs|
    requires 0 <= t <= t' < |cs[i].path| - 1 && Climbs(cs, rootId, cs[i].path, t)
    requires t' < |cs[k].path| - 1 && Climbs(cs, rootId, cs[k].path, t')
    requires cs[i].path[..t' + 1] == cs[k].path[..t' + 1]
    ensures CreatedBy(cs, rootId, k, cs[i].path[t])
  {
    var p, q := cs[i].path, cs[k].path;
    forall s | 0 <= s <= t' ensures q[s] == p[s] {
      assert q[s] == q[..t' + 1][s] && p[s] == p[..t' + 1][s];
    }
    assert Climbs(cs, rootId, q, t);
  }

  /** Moving past comment `i` takes its id, and only it, out of the waiting set. */
  lemma WaitingStep(cs: seq<CommentModel>, i: int)
    requires WellFormed(cs) && 0 <= i < |cs|
    ensures Waiting(cs, i) == Waiting(cs, i + 1) + {cs[i].id}
    ensures cs[i].id !in Waiting(cs, i + 1)
  {
  }

  /**
   * `sortToNestedOrder`: the comments of the requested part of the thread
   * (all of it, or the replies below `ancestorId`) in nested order, each id
   * once, with a removed empty comment in place of every ancestor missing
   * from the input.
   */
  method SortToNestedOrder(cs: seq<CommentModel>, ancestorId: Option<int>) returns (r: seq<CommentModel>)
    requires WellFormed(cs)
    ensures NoDups(IdsOf(r))
    ensures forall m :: m in IdsOf(r) <==> m != 0 && Mentioned(Paths(cs), m) && InScope(PathTo(Paths(cs), m), ancestorId)
    ensures forall i, j | 0 <= i < |r| && 0 <= j < |cs| && r[i].id == cs[j].id :: r[i] == cs[j]
    ensures forall i | 0 <= i < |r| && r[i].id !in InputIds(cs) :: r[i] == Tombstone(r[i].id)
    ensures NestedOrder(Paths(cs), IdsOf(r))
    ensures SiblingsInThreadOrder(cs, ancestorId, IdsOf(r))
    ensures SubtreesInThreadOrder(cs, ancestorId, IdsOf(r))
    ensures SiblingsInInputOrder(cs, IdsOf(r))
  {
    var memo := BuildMemo(cs);
    ConnectAll(memo, cs, ancestorId);
    var root := JoinForestUnderSingleRoot(ancestorId, memo);
    ForestFits(memo.nodes, memo.order, cs, ancestorId, root);
    var list := new NodeList();
    Linearize(memo, root, list, MaxLen(Paths(cs)));
    ghost var pre := PreorderOf(memo.nodes, root, MaxLen(Paths(cs)));
    assert list.items == [] + pre == pre;
    var nodes, items := memo.nodes, list.items;
    Emitted(nodes, memo.order, cs, ancestorId, root, items);
    EmittedRanked(nodes, memo.order, cs, ancestorId, root, items);
    ThreadOrderTransfer(nodes, cs, ancestorId, items);
    SubtreeOrderTransfer(nodes, memo.order, cs, ancestorId, items);
    InputOrderOfThreadOrder(cs, ancestorId, items);
    SortedResult(nodes, memo.order, cs, ancestorId, items);
    r := Materialized(nodes, items);
  }

  /** The `map` over the linearised nodes. */
  function Materialized(nodes: map<int, CommentNode>, items: seq<int>): (r: seq<CommentModel>)
    requires forall i | 0 <= i < |items| :: items[i] in nodes
    ensures |r| == |items| && forall i | 0 <= i < |items| :: r[i] == Materialize(nodes[items[i]])
  {
    seq(|items|, i requires 0 <= i < |items| => Materialize(nodes[items[i]]))
  }

  /** The comments made from the linearisation of the joined root are the result `sortToNestedOrder` promises. */
  lemma SortedResult(nodes: map<int, CommentNode>, order: seq<int>, cs: seq<CommentModel>, ancestorId: Option<int>,
                     items: seq<int>)
    requires Linked(nodes, order, cs, ancestorId)
    requires forall i | 0 <= i < |items| :: items[i] in nodes
    requires NoDups(items)
    requires forall m :: m in items <==> m != 0 && Mentioned(Paths(cs), m) && InScope(PathTo(Paths(cs), m), ancestorId)
    requires NestedOrder(Paths(cs), items)
    requires SiblingsInThreadOrder(cs, ancestorId, items)
    requires SubtreesInThreadOrder(cs, ancestorId, items)
    requires SiblingsInInputOrder(cs, items)
    ensures var r := Materialized(nodes, items);
      && NoDups(IdsOf(r))
      && (forall m :: m in IdsOf(r) <==> m != 0 && Mentioned(Paths(cs), m) && InScope(PathTo(Paths(cs), m), ancestorId))
      && (forall i, j | 0 <= i < |r| && 0 <= j < |cs| && r[i].id == cs[j].id :: r[i] == cs[j])
      && (forall i | 0 <= i < |r| && r[i].id !in InputIds(cs) :: r[i] == Tombstone(r[i].id))
      && NestedOrder(Paths(cs), IdsOf(r))
      && SiblingsInThreadOrder(cs, ancestorId, IdsOf(r))
      && SubtreesInThreadOrder(cs, ancestorId, IdsOf(r))
      && SiblingsInInputOrder(cs, IdsOf(r))
  {
    MaterializedAll(nodes, order, cs, ancestorId, items, Materialized(nodes, items));
  }

  /** The linked memo is a tree, and the joined root fits on top of it. */
  lemma ForestFits(nodes: map<int, CommentNode>, order: seq<int>, cs: seq<CommentModel>, rootId: Option<int>, root: CommentNode)
    requires WellFormed(cs) && Linked(nodes, order, cs, rootId)
    requires root.Path() == [] && root.children == Roots(nodes, order, rootId)
    ensures Tree(nodes, MaxLen(Paths(cs))) && Fits(nodes, root, MaxLen(Paths(cs)))
  {
    ValidTree(nodes, Paths(cs));
    RootsFit(nodes, order, Paths(cs), rootId, root);
  }

  /** Turning the listed nodes back into comments keeps their ids and the input comments. */
  lemma MaterializedAll(nodes: map<int, CommentNode>, order: seq<int>, cs: seq<CommentModel>, rootId: Option<int>,
                        items: seq<int>, r: seq<CommentModel>)
    requires Linked(nodes, order, cs, rootId)
    requires |r| == |items| && forall i | 0 <= i < |items| :: items[i] in nodes && r[i] == Materialize(nodes[items[i]])
    ensures IdsOf(r) == items
    ensures forall i, j | 0 <= i < |r| && 0 <= j < |cs| && r[i].id == cs[j].id :: r[i] == cs[j]
    ensures forall i | 0 <= i < |r| && r[i].id !in InputIds(cs) :: r[i] == Tombstone(r[i].id)
  {
    forall i | 0 <= i < |r| ensures IdsOf(r)[i] == items[i] {
      assert r[i].id == nodes[items[i]].Id();
      assert NodeOk(nodes, Paths(cs), items[i]);
    }
    forall i, j | 0 <= i < |r| && 0 <= j < |cs| && r[i].id == cs[j].id ensures r[i] == cs[j] {
      var n := nodes[cs[j].id];
      assert n.Bare() == Actual(cs[j], [], None);
      assert n.Actual? && n.comment == cs[j];
    }
  }

  /**
   * What the linearisation of the joined root lists, once the memo is linked:
   * each id once, exactly the ids in scope other than 0, in nested order.
   */
  lemma Emitted(nodes: map<int, CommentNode>, order: seq<int>, cs: seq<CommentModel>, rootId: Option<int>,
                root: CommentNode, items: seq<int>)
    requires WellFormed(cs) && Linked(nodes, order, cs, rootId)
    requires root.Id() == 0 && root.Path() == [] && root.children == Roots(nodes, order, rootId)
    requires Tree(nodes, MaxLen(Paths(cs))) && Fits(nodes, root, MaxLen(Paths(cs)))
    requires items == PreorderOf(nodes, root, MaxLen(Paths(cs)))
    ensures forall i | 0 <= i < |items| :: items[i] in nodes
    ensures NoDups(items)
    ensures forall m :: m in items <==> m != 0 && Mentioned(Paths(cs), m) && InScope(PathTo(Paths(cs), m), rootId)
    ensures NestedOrder(Paths(cs), items)
  {
    var ps := Paths(cs);
    var bound := MaxLen(ps);
    forall i | 0 <= i < |items| ensures items[i] in nodes {
      EmittedInScope(nodes, order, ps, rootId, root, items[i]);
    }
    PreorderOfNoDups(nodes, root, bound);
    forall a {:trigger Last(ps[a])} | 0 <= a < |ps|
      ensures ps[a] != [] && Last(ps[a]) in nodes && nodes[Last(ps[a])].Path() == ps[a]
    {
      assert ps[a] == cs[a].path;
    }
    assert PathsStored(nodes, ps);
    forall m ensures m in items <==> m != 0 && Mentioned(ps, m) && InScope(PathTo(ps, m), rootId) {
      KeysInScope(nodes, ps, rootId, m);
      if m in items {
        EmittedInScope(nodes, order, ps, rootId, root, m);
      } else if m != 0 && Mentioned(ps, m) && InScope(PathTo(ps, m), rootId) {
        InScopeEmitted(nodes, order, ps, rootId, root, m);
      }
    }
    PreorderOfOrdered(nodes, root, bound);
    OrderTransfer(nodes, ps, items);
  }

  /** A pre-order of the memo is a nested order of the tree the paths describe. */
  lemma OrderTransfer(nodes: map<int, CommentNode>, ps: seq<seq<int>>, L: seq<int>)
    requires Consistent(ps) && NodesValid(nodes, ps)
    requires forall x | x in L :: x in nodes
    requires PreOrdered(nodes, L)
    ensures NestedOrder(ps, L)
  {
    forall a, b | a in L && b in L ensures Anc(nodes, a, b) <==> AncestorIn(ps, a, b) {
      NodePath(nodes, ps, a);
      NodePath(nodes, ps, b);
    }
    forall i, j | 0 <= i < |L| && 0 <= j < |L| ensures AncestorFirst(ps, L, i, j) {
      assert L[i] in L && L[j] in L;
    }
    forall i, j, m | 0 <= i < j < m < |L| ensures SubtreeContiguous(ps, L, i, j, m) {
      assert L[i] in L && L[j] in L && L[m] in L;
    }
  }

  /**
   * Every input comment in the requested part of the thread is in the result
   * of `sortToNestedOrder`, unchanged: with no ancestor, every comment but one
   * with id 0.
   */
  lemma InputInScopeKept(cs: seq<CommentModel>, ancestorId: Option<int>, r: seq<CommentModel>, j: int)
    requires WellFormed(cs)
    requires forall m :: m in IdsOf(r) <==> m != 0 && Mentioned(Paths(cs), m) && InScope(PathTo(Paths(cs), m), ancestorId)
    requires forall i, j | 0 <= i < |r| && 0 <= j < |cs| && r[i].id == cs[j].id :: r[i] == cs[j]
    requires 0 <= j < |cs| && cs[j].id != 0 && InScope(cs[j].path, ancestorId)
    ensures cs[j] in r
  {
    var ps := Paths(cs);
    var id := cs[j].id;
    assert ps[j] == cs[j].path;
    assert ps[j][|ps[j]| - 1] == id;
    TrieInput(ps, j);
    TrieUnique(ps, PathTo(ps, id), ps[j]);
    assert id in IdsOf(r);
    var i :| 0 <= i < |r| && IdsOf(r)[i] == id;
    assert r[i] == cs[j];
  }

  /** The ancestor the result is restricted to is not part of it: only its replies are. */
  lemma AncestorLeftOut(cs: seq<CommentModel>, x: int, r: seq<CommentModel>)
    requires WellFormed(cs)
    requires forall m :: m in IdsOf(r) <==> m != 0 && Mentioned(Paths(cs), m) && InScope(PathTo(Paths(cs), m), Some(x))
    ensures x !in IdsOf(r)
  {
    var ps := Paths(cs);
    if x in IdsOf(r) {
      var p := PathTo(ps, x);
      var k :| 0 <= k < |p| - 1 && p[..|p| - 1][k] == x;
      TrieDistinct(ps, p, k, |p| - 1);
      assert false;
    }
  }

  /**
   * The linearisation of the joined root lists siblings in order of their
   * keys: the replies it starts from come in memo order, every other list of
   * replies in the order the pass attached them.
   */
  lemma EmittedRanked(nodes: map<int, CommentNode>, order: seq<int>, cs: seq<CommentModel>, rootId: Option<int>,
                      root: CommentNode, items: seq<int>)
    requires WellFormed(cs) && Linked(nodes, order, cs, rootId)
    requires RankedChildren(nodes, Steps(cs, rootId)) && RankedList(Inserts(cs, rootId), order)
    requires root.Id() == 0 && root.children == Roots(nodes, order, rootId)
    requires Tree(nodes, MaxLen(Paths(cs))) && Fits(nodes, root, MaxLen(Paths(cs)))
    requires items == PreorderOf(nodes, root, MaxLen(Paths(cs)))
    ensures SubtreesByRank(nodes, SiblingKeys(cs, rootId), items)
    ensures SiblingsByRank(nodes, SiblingKeys(cs, rootId), items)
  {
    var ps := Paths(cs);
    forall k | k in nodes ensures PathEndsAt(nodes, k) {
      assert NodeOk(nodes, ps, k);
    }
    RootsRanked(nodes, order, rootId, Inserts(cs, rootId));
    RootKeys(nodes, order, cs, rootId);
    RootsAlike(nodes, order, cs, rootId);
    DeepKeys(nodes, cs, rootId);
    MemoImmediate(nodes, ps);
    PreorderOfRanked(nodes, SiblingKeys(cs, rootId), root, MaxLen(ps), TopDepth(cs, rootId));
  }

  /** The key of a node of the memo, by where its path puts it. */
  lemma NodeKeys(nodes: map<int, CommentNode>, cs: seq<CommentModel>, rootId: Option<int>, x: int)
    requires WellFormed(cs) && NodesValid(nodes, Paths(cs)) && x in nodes
    ensures Mentioned(Paths(cs), x) && PathTo(Paths(cs), x) == nodes[x].Path()
    ensures x in Steps(cs, rootId) && x in Inserts(cs, rootId) && x in SiblingKeys(cs, rootId)
    ensures SiblingKeys(cs, rootId)[x]
            == if TopLevel(nodes[x].Path(), rootId) then Inserts(cs, rootId)[x] else Steps(cs, rootId)[x]
    ensures TopLevel(nodes[x].Path(), rootId) ==> |nodes[x].Path()| == TopDepth(cs, rootId)
  {
    NodePath(nodes, Paths(cs), x);
    MentionedIn(Paths(cs), x);
    assert NodeOk(nodes, Paths(cs), x);
    TopLevelDepth(cs, rootId, nodes[x].Path());
  }

  /** The replies the joined root starts from lie at the top depth and are ranked by memo order. */
  lemma RootKeys(nodes: map<int, CommentNode>, order: seq<int>, cs: seq<CommentModel>, rootId: Option<int>)
    requires WellFormed(cs) && Linked(nodes, order, cs, rootId)
    requires RankedList(Inserts(cs, rootId), Roots(nodes, order, rootId))
    ensures RankedList(SiblingKeys(cs, rootId), Roots(nodes, order, rootId))
    ensures forall u | 0 <= u < |Roots(nodes, order, rootId)| ::
              var x := Roots(nodes, order, rootId)[u]; x in nodes && |nodes[x].Path()| >= TopDepth(cs, rootId)
  {
    var rs := Roots(nodes, order, rootId);
    forall u | 0 <= u < |rs|
      ensures rs[u] in Inserts(cs, rootId) && rs[u] in SiblingKeys(cs, rootId)
      ensures SiblingKeys(cs, rootId)[rs[u]] == Inserts(cs, rootId)[rs[u]]
      ensures rs[u] in nodes && |nodes[rs[u]].Path()| >= TopDepth(cs, rootId)
    {
      var x := rs[u];
      assert x in rs;
      assert NodeOk(nodes, Paths(cs), x) && Settled(nodes, x, rootId);
      NodeKeys(nodes, cs, rootId, x);
    }
    RankedListSame(Inserts(cs, rootId), SiblingKeys(cs, rootId), rs);
  }

  /** A node the joined root starts from has a top-level path. */
  lemma RootTop(nodes: map<int, CommentNode>, order: seq<int>, cs: seq<CommentModel>, rootId: Option<int>, x: int)
    requires WellFormed(cs) && Linked(nodes, order, cs, rootId) && x in Roots(nodes, order, rootId)
    ensures x in nodes && InTrie(Paths(cs), nodes[x].Path()) && TopLevel(nodes[x].Path(), rootId)
  {
    assert NodeOk(nodes, Paths(cs), x) && Settled(nodes, x, rootId);
  }

  /** The replies the joined root starts from are siblings. */
  lemma RootsAlike(nodes: map<int, CommentNode>, order: seq<int>, cs: seq<CommentModel>, rootId: Option<int>)
    requires WellFormed(cs) && Linked(nodes, order, cs, rootId)
    ensures Alike(nodes, Roots(nodes, order, rootId))
  {
    var rs := Roots(nodes, order, rootId);
    forall u, v | 0 <= u < v < |rs| ensures AlikeAt(nodes, rs, u, v) {
      assert rs[u] in rs && rs[v] in rs;
      RootTop(nodes, order, cs, rootId, rs[u]);
      RootTop(nodes, order, cs, rootId, rs[v]);
      TopLevelSiblings(cs, rootId, nodes[rs[u]].Path(), nodes[rs[v]].Path());
    }
  }

  /** In the linked memo every reply lies one level below the comment it replies to. */
  lemma MemoImmediate(nodes: map<int, CommentNode>, ps: seq<seq<int>>)
    requires Consistent(ps) && NodesValid(nodes, ps)
    ensures Immediate(nodes)
  {
    forall k | k in nodes ensures ImmediateAt(nodes, k) {
      forall u | 0 <= u < |nodes[k].children|
        ensures nodes[k].children[u] in nodes && |nodes[nodes[k].children[u]].Path()| == |nodes[k].Path()| + 1
      {
        assert nodes[k].children[u] in nodes[k].children;
        ChildPath(nodes, ps, k, nodes[k].children[u]);
      }
    }
  }

  /** Below the top depth every list of replies is ranked by the steps that attached them. */
  lemma DeepKeys(nodes: map<int, CommentNode>, cs: seq<CommentModel>, rootId: Option<int>)
    requires WellFormed(cs) && NodesValid(nodes, Paths(cs))
    requires RankedChildren(nodes, Steps(cs, rootId))
    ensures RankedFrom(nodes, SiblingKeys(cs, rootId), TopDepth(cs, rootId))
  {
    forall k | k in nodes && |nodes[k].Path()| >= TopDepth(cs, rootId)
      ensures RankedNode(nodes, SiblingKeys(cs, rootId), k)
    {
      var ch := nodes[k].children;
      forall u | 0 <= u < |ch|
        ensures ch[u] in Steps(cs, rootId) && ch[u] in SiblingKeys(cs, rootId)
        ensures SiblingKeys(cs, rootId)[ch[u]] == Steps(cs, rootId)[ch[u]]
      {
        ChildPath(nodes, Paths(cs), k, ch[u]);
        NodeKeys(nodes, cs, rootId, ch[u]);
      }
      assert RankedNode(nodes, Steps(cs, rootId), k);
      RankedListSame(Steps(cs, rootId), SiblingKeys(cs, rootId), ch);
    }
  }

  /** Rank order of the listed siblings is the order of their keys, and lists them in increasing key. */
  lemma ThreadOrderTransfer(nodes: map<int, CommentNode>, cs: seq<CommentModel>, rootId: Option<int>, items: seq<int>)
    requires WellFormed(cs) && NodesValid(nodes, Paths(cs))
    requires forall x :: x in nodes <==> x in InputIds(cs) || FirstStep(cs, rootId, x, 0) < |cs|
    requires forall i | 0 <= i < |items| :: items[i] in nodes
    requires NoDups(items)
    requires SiblingsByRank(nodes, SiblingKeys(cs, rootId), items)
    ensures SiblingsInThreadOrder(cs, rootId, items)
  {
    var ps := Paths(cs);
    forall i, j | 0 <= i < |items| && 0 <= j < |items| ensures ThreadOrderAt(cs, rootId, items, i, j) {
      var x, y := items[i], items[j];
      NodeKeys(nodes, cs, rootId, x);
      NodeKeys(nodes, cs, rootId, y);
      assert SiblingRankAt(nodes, SiblingKeys(cs, rootId), items, j, i);
      if i < j && SameParent(PathTo(ps, x), PathTo(ps, y)) {
        SiblingKeysDistinct(cs, rootId, x, y);
      }
    }
  }

  /** Siblings in the order of their keys are input comments in input order. */
  lemma InputOrderOfThreadOrder(cs: seq<CommentModel>, rootId: Option<int>, L: seq<int>)
    requires WellFormed(cs) && SiblingsInThreadOrder(cs, rootId, L)
    ensures SiblingsInInputOrder(cs, L)
  {
    RankOfDistinct(cs);
    forall a, b, i, j | 0 <= a < b < |cs| && 0 <= i < |L| && 0 <= j < |L|
      ensures InputOrderAt(cs, L, a, b, i, j)
    {
      if L[i] == cs[a].id && L[j] == cs[b].id && SameParent(cs[a].path, cs[b].path) {
        InputPath(cs, a);
        InputPath(cs, b);
        SiblingsTopLevel(cs[a].path, cs[b].path, rootId);
        assert SiblingKey(cs, rootId, cs[a].id) == a && SiblingKey(cs, rootId, cs[b].id) == b;
        assert ThreadOrderAt(cs, rootId, L, j, i);
      }
    }
  }

  /**
   * Listed subtrees in rank order are in thread order: siblings that lie in
   * the requested part of the thread are memo keys, and two siblings above
   * it are one id.
   */
  lemma SubtreeOrderTransfer(nodes: map<int, CommentNode>, order: seq<int>, cs: seq<CommentModel>, rootId: Option<int>,
                             items: seq<int>)
    requires WellFormed(cs) && Linked(nodes, order, cs, rootId)
    requires forall i | 0 <= i < |items| :: items[i] in nodes
    requires forall m | m in items :: Mentioned(Paths(cs), m) && InScope(PathTo(Paths(cs), m), rootId)
    requires SubtreesByRank(nodes, SiblingKeys(cs, rootId), items)
    ensures SubtreesInThreadOrder(cs, rootId, items)
  {
    var ps := Paths(cs);
    forall a {:trigger Last(ps[a])} | 0 <= a < |ps|
      ensures ps[a] != [] && Last(ps[a]) in nodes && nodes[Last(ps[a])].Path() == ps[a]
    {
      assert ps[a] == cs[a].path;
      assert CommentsKept(nodes, cs);
    }
    assert PathsStored(nodes, ps);
    forall i, j, a, b | 0 <= i < |items| && 0 <= j < |items| ensures SubtreeOrderAt(cs, rootId, items, i, j, a, b) {
      var x, y := items[i], items[j];
      if Mentioned(ps, a) && Mentioned(ps, b)
         && IsPrefix(PathTo(ps, a), PathTo(ps, x)) && IsPrefix(PathTo(ps, b), PathTo(ps, y))
         && SameParent(PathTo(ps, a), PathTo(ps, b)) {
        assert x in items && y in items;
        if InScope(PathTo(ps, a), rootId) && InScope(PathTo(ps, b), rootId) {
          KeysInScope(nodes, ps, rootId, a);
          KeysInScope(nodes, ps, rootId, b);
          NodeKeys(nodes, cs, rootId, a);
          NodeKeys(nodes, cs, rootId, b);
          NodeKeys(nodes, cs, rootId, x);
          NodeKeys(nodes, cs, rootId, y);
          assert SubtreeRankAt(nodes, SiblingKeys(cs, rootId), items, i, j, a, b);
        } else {
          OutOfScopeSame(cs, rootId.value, x, y, a, b);
        }
      }
    }
  }

  /**
   * Two siblings on the paths of two comments below the ancestor, one of
   * them not below it itself, are the same id.
   */
  lemma OutOfScopeSame(cs: seq<CommentModel>, r: int, x: int, y: int, a: int, b: int)
    requires WellFormed(cs)
    requires Mentioned(Paths(cs), x) && Mentioned(Paths(cs), y) && Mentioned(Paths(cs), a) && Mentioned(Paths(cs), b)
    requires InScope(PathTo(Paths(cs), x), Some(r)) && InScope(PathTo(Paths(cs), y), Some(r))
    requires IsPrefix(PathTo(Paths(cs), a), PathTo(Paths(cs), x)) && IsPrefix(PathTo(Paths(cs), b), PathTo(Paths(cs), y))
    requires SameParent(PathTo(Paths(cs), a), PathTo(Paths(cs), b))
    requires !InScope(PathTo(Paths(cs), a), Some(r)) || !InScope(PathTo(Paths(cs), b), Some(r))
    ensures a == b
  {
    var ps := Paths(cs);
    var px, py, pa, pb := PathTo(ps, x), PathTo(ps, y), PathTo(ps, a), PathTo(ps, b);
    var s := ScopeIndex(px, r);
    var s' := ScopeIndex(py, r);
    TrieAgree(ps, px, py, s, s');
    var n := |pa|;
    if n > s + 1 {
      DeepInScope(pa, pb, px, py, s, r);
      assert false;
    }
    assert pa == px[..n] == px[..s + 1][..n] == py[..s + 1][..n] == py[..n] == pb;
  }

  /** Sibling prefixes longer than the ancestor's place on both paths lie below the ancestor. */
  lemma DeepInScope(pa: seq<int>, pb: seq<int>, px: seq<int>, py: seq<int>, s: nat, r: int)
    requires IsPrefix(pa, px) && IsPrefix(pb, py) && |pa| == |pb| && s + 1 < |pa|
    requires px[s] == r && py[s] == r
    ensures InScope(pa, Some(r)) && InScope(pb, Some(r))
  {
    assert pa[..|pa| - 1][s] == px[s];
    assert pb[..|pb| - 1][s] == py[s];
  }
}
