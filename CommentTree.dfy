/**
 * `sortToNestedOrder`: rebuilding the reply tree of a flat list of comments
 * and listing it back in nested (pre-)order, with placeholders standing in
 * for the comments the list references but does not contain.
 */
module CommentTree {
  import opened Optional
  import opened Comments
  import opened CommentPaths
  import opened CommentNodes
  import opened CommentPreorder
  import opened CommentForest

  /** After the upward walk stopped at index `top`, whether it ended by linking to a node already in the memo. */
  predicate Attached(p: seq<int>, top: nat, rootId: Option<int>)
    requires top < |p|
  {
    top > 0 && Some(p[top]) != rootId
  }

  /**
   * What one call of `connectNodesAndGeneratePlaceholders` on the node `c`
   * with path `p` did to the memo, the walk having stopped at index `top` of
   * `p`:
   * - the walk stopped at the top of the path, at the restricting ancestor,
   *   or below a node the memo already held, and went through no restricting
   *   ancestor on the way;
   * - every id it went through above `c` was missing and is now a
   *   placeholder, inserted bottom-up after the old keys, whose path is the
   *   prefix of `p` ending in it, whose only child is the id below it and
   *   whose parent is the id above it unless the walk stopped at it without
   *   linking;
   * - of the old nodes only two change: `c` gets the parent its path names,
   *   when it needs one, and the node the walk linked to gets one more child.
   */
  ghost predicate Connected(
    nodes0: map<int, CommentNode>, order0: seq<int>, nodes: map<int, CommentNode>, order: seq<int>,
    p: seq<int>, c: int, rootId: Option<int>, top: nat)
  {
    && WalkStopped(nodes0, p, rootId, top)
    && KeysAdded(nodes0, order0, nodes, order, p, top)
    && PlaceholdersCreated(nodes, p, rootId, top)
    && OldNodesLinked(nodes0, nodes, p, c, rootId, top)
  }

  /** Where the walk stopped, and that it went through no restricting ancestor. */
  ghost predicate WalkStopped(nodes0: map<int, CommentNode>, p: seq<int>, rootId: Option<int>, top: nat) {
    && top < |p|
    && (top == 0 || Some(p[top]) == rootId || p[top - 1] in nodes0)
    && (forall j | top < j < |p| :: Some(p[j]) != rootId)
    && (forall j | top <= j < |p| - 1 :: p[j] !in nodes0)
  }

  /** The ids the walk went through above `c` are the new keys, inserted bottom-up. */
  ghost predicate KeysAdded(
    nodes0: map<int, CommentNode>, order0: seq<int>, nodes: map<int, CommentNode>, order: seq<int>,
    p: seq<int>, top: nat)
  {
    && top < |p|
    && nodes.Keys == nodes0.Keys + (set j | top <= j < |p| - 1 :: p[j])
    && |order| == |order0| + (|p| - 1 - top)
    && order[..|order0|] == order0
    && (forall j | top <= j < |p| - 1 :: order[|order0| + (|p| - 2 - j)] == p[j])
  }

  /** Each new key holds the placeholder for its prefix of `p`. */
  ghost predicate PlaceholdersCreated(nodes: map<int, CommentNode>, p: seq<int>, rootId: Option<int>, top: nat) {
    && top < |p|
    && (forall j | top <= j < |p| - 1 :: HoldsPlaceholder(nodes, p, rootId, top, j))
  }

  /**
   * The id at index `j` of `p` holds the placeholder for the prefix ending in
   * it, with the id below it as only child and the id above it as parent
   * unless the walk stopped at it without linking.
   */
  ghost predicate HoldsPlaceholder(nodes: map<int, CommentNode>, p: seq<int>, rootId: Option<int>, top: nat, j: int)
    requires top <= j < |p| - 1
  {
    && p[j] in nodes
    && nodes[p[j]]
       == Placeholder(PlaceholderComment(p[j], p[..j + 1]), [p[j + 1]],
                      if j > top || Attached(p, top, rootId) then Some(p[j - 1]) else None)
  }

  /** Of the old nodes only `c` and the node the walk linked to change. */
  ghost predicate OldNodesLinked(
    nodes0: map<int, CommentNode>, nodes: map<int, CommentNode>, p: seq<int>, c: int, rootId: Option<int>, top: nat)
  {
    && top < |p|
    && (forall k | k in nodes0 ::
          k in nodes
          && nodes[k]
             == nodes0[k].(
                  parent :=
                    if k == c && |p| > 1 && Some(c) != rootId then Some(p[|p| - 2]) else nodes0[k].parent,
                  children :=
                    if Attached(p, top, rootId) && k == p[top - 1] then nodes0[k].children + [p[top]]
                    else nodes0[k].children))
  }

  /** A node that needs no parent is left alone. */
  lemma ConnectedStop(nodes: map<int, CommentNode>, order: seq<int>, p: seq<int>, c: int, rootId: Option<int>)
    requires p != [] && Last(p) == c && !(|p| > 1 && Some(c) != rootId)
    ensures Connected(nodes, order, nodes, order, p, c, rootId, |p| - 1)
  {
    assert order[..|order|] == order;
  }

  /** Linking `c` to its parent `q`, already in the memo. */
  lemma ConnectedLink(nodes: map<int, CommentNode>, order: seq<int>, p: seq<int>, c: int, q: int, rootId: Option<int>)
    requires |p| > 1 && Last(p) == c && Some(c) != rootId && q == p[|p| - 2] && c != q
    requires c in nodes && q in nodes
    ensures Connected(nodes, order,
                      nodes[c := nodes[c].(parent := Some(q))][q := nodes[q].(children := nodes[q].children + [c])],
                      order, p, c, rootId, |p| - 1)
  {
    assert order[..|order|] == order;
  }

  /**
   * Creating the placeholder `q` for the missing parent of `c` and then
   * connecting `q` composes into one call on `c`.
   */
  lemma ConnectedStep(
    nodes0: map<int, CommentNode>, order0: seq<int>, mid: map<int, CommentNode>, midOrder: seq<int>,
    nodes: map<int, CommentNode>, order: seq<int>, p: seq<int>, c: int, rootId: Option<int>, top: nat)
    requires |p| > 1 && Last(p) == c && Some(c) != rootId && NoDups(p)
    requires c in nodes0 && p[|p| - 2] !in nodes0 && nodes0[c].parent == None
    requires mid == nodes0[c := nodes0[c].(parent := Some(p[|p| - 2]))]
                          [p[|p| - 2] := Placeholder(PlaceholderComment(p[|p| - 2], p[..|p| - 1]), [c], None)]
    requires midOrder == order0 + [p[|p| - 2]]
    requires Connected(mid, midOrder, nodes, order, p[..|p| - 1], p[|p| - 2], rootId, top)
    ensures Connected(nodes0, order0, nodes, order, p, c, rootId, top)
  {
    StepStopped(nodes0, mid, p, c, rootId, top);
    StepKeys(nodes0, order0, mid, midOrder, nodes, order, p, c, top);
    StepCreated(nodes0, mid, nodes, p, c, rootId, top);
    StepOld(nodes0, mid, nodes, p, c, rootId, top);
  }

  lemma StepStopped(
    nodes0: map<int, CommentNode>, mid: map<int, CommentNode>, p: seq<int>, c: int, rootId: Option<int>, top: nat)
    requires |p| > 1 && Last(p) == c && Some(c) != rootId && NoDups(p)
    requires c in nodes0 && p[|p| - 2] !in nodes0
    requires mid.Keys == nodes0.Keys + {p[|p| - 2]}
    requires WalkStopped(mid, p[..|p| - 1], rootId, top)
    ensures WalkStopped(nodes0, p, rootId, top)
  {
    var n := |p|;
    var pp := p[..n - 1];
    assert forall j | 0 <= j < n - 1 :: pp[j] == p[j];
    if top > 0 && Some(p[top]) != rootId {
      assert pp[top - 1] in mid;
      assert p[top - 1] != p[n - 2];
    }
  }

  lemma StepKeys(
    nodes0: map<int, CommentNode>, order0: seq<int>, mid: map<int, CommentNode>, midOrder: seq<int>,
    nodes: map<int, CommentNode>, order: seq<int>, p: seq<int>, c: int, top: nat)
    requires |p| > 1
    requires mid.Keys == nodes0.Keys + {p[|p| - 2]}
    requires midOrder == order0 + [p[|p| - 2]]
    requires KeysAdded(mid, midOrder, nodes, order, p[..|p| - 1], top)
    ensures KeysAdded(nodes0, order0, nodes, order, p, top)
  {
    var n := |p|;
    var pp := p[..n - 1];
    assert forall j | 0 <= j < n - 1 :: pp[j] == p[j];
    var created := set j | top <= j < n - 1 :: p[j];
    var created0 := set j | top <= j < n - 2 :: pp[j];
    assert created == created0 + {p[n - 2]};
    assert order[..|midOrder|] == midOrder;
    assert order[..|order0|] == midOrder[..|order0|];
  }

  lemma StepCreated(
    nodes0: map<int, CommentNode>, mid: map<int, CommentNode>, nodes: map<int, CommentNode>,
    p: seq<int>, c: int, rootId: Option<int>, top: nat)
    requires |p| > 1 && Last(p) == c && NoDups(p) && c in nodes0
    requires mid == nodes0[c := nodes0[c].(parent := Some(p[|p| - 2]))]
                          [p[|p| - 2] := Placeholder(PlaceholderComment(p[|p| - 2], p[..|p| - 1]), [c], None)]
    requires WalkStopped(mid, p[..|p| - 1], rootId, top)
    requires PlaceholdersCreated(nodes, p[..|p| - 1], rootId, top)
    requires OldNodesLinked(mid, nodes, p[..|p| - 1], p[|p| - 2], rootId, top)
    ensures PlaceholdersCreated(nodes, p, rootId, top)
  {
    var n := |p|;
    var q := p[n - 2];
    var pp := p[..n - 1];
    assert forall j | 0 <= j < n - 1 :: pp[j] == p[j] && pp[..j + 1] == p[..j + 1];
    assert Attached(pp, top, rootId) == Attached(p, top, rootId);
    forall j | top <= j < n - 1 ensures HoldsPlaceholder(nodes, p, rootId, top, j) {
      if j == n - 2 {
        assert q in mid;
        assert Attached(pp, top, rootId) ==> pp[top - 1] != q;
        assert j > top ==> Some(pp[j]) != rootId;
      } else {
        assert HoldsPlaceholder(nodes, pp, rootId, top, j);
      }
    }
  }

  lemma StepOld(
    nodes0: map<int, CommentNode>, mid: map<int, CommentNode>, nodes: map<int, CommentNode>,
    p: seq<int>, c: int, rootId: Option<int>, top: nat)
    requires |p| > 1 && Last(p) == c && Some(c) != rootId && NoDups(p)
    requires c in nodes0 && p[|p| - 2] !in nodes0
    requires mid == nodes0[c := nodes0[c].(parent := Some(p[|p| - 2]))]
                          [p[|p| - 2] := Placeholder(PlaceholderComment(p[|p| - 2], p[..|p| - 1]), [c], None)]
    requires OldNodesLinked(mid, nodes, p[..|p| - 1], p[|p| - 2], rootId, top)
    ensures OldNodesLinked(nodes0, nodes, p, c, rootId, top)
  {
    var n := |p|;
    var q := p[n - 2];
    var pp := p[..n - 1];
    assert forall j | 0 <= j < n - 1 :: pp[j] == p[j];
    assert Attached(pp, top, rootId) == Attached(p, top, rootId);
    forall k | k in nodes0
      ensures k in nodes
      ensures nodes[k]
              == nodes0[k].(
                   parent :=
                     if k == c && |p| > 1 && Some(c) != rootId then Some(p[|p| - 2]) else nodes0[k].parent,
                   children :=
                     if Attached(p, top, rootId) && k == p[top - 1] then nodes0[k].children + [p[top]]
                     else nodes0[k].children)
    {
      assert k in mid && k != q;
      assert Attached(pp, top, rootId) ==> pp[top - 1] != c;
    }
  }

  /**
   * `connectNodesAndGeneratePlaceholders`: links the node `currentId`, whose
   * path is `currentPath`, to its parent, creating a placeholder for the
   * parent when the memo lacks it and then linking that placeholder in turn.
   * The ghost result `top` is the index, in `currentPath`, of the node at
   * which the walk up stopped; `Connected` states the new memo.
   */
  method ConnectNodesAndGeneratePlaceholders(
    memo: Memo, currentPath: seq<int>, currentId: int, rootCommentId: Option<int>,
    ghost ps: seq<seq<int>>, ghost waiting: set<int>)
    returns (ghost top: nat)
    requires memo.Keyed() && Consistent(ps) && NodesValid(memo.nodes, ps)
    requires currentId in memo.nodes && memo.nodes[currentId].Path() == currentPath
    requires currentId !in waiting && waiting <= memo.nodes.Keys
    requires LinkState(memo.nodes, waiting + {currentId}, rootCommentId)
    modifies memo
    decreases |currentPath|
    ensures memo.Keyed() && NodesValid(memo.nodes, ps) && LinkState(memo.nodes, waiting, rootCommentId)
    ensures Connected(old(memo.nodes), old(memo.order), memo.nodes, memo.order, currentPath, currentId, rootCommentId, top)
  {
    assert NodeOk(memo.nodes, ps, currentId);
    ghost var n := |currentPath|;
    if |currentPath| > 1 && Some(currentId) != rootCommentId {
      var parentId := currentPath[|currentPath| - 2];
      TrieDistinct(ps, currentPath, n - 2, n - 1);
      var parent := memo.Get(parentId);
      if parent.Some? {
        LinkKeepsValid(memo.nodes, ps, currentId, parentId);
        LinkKeepsState(memo.nodes, waiting, rootCommentId, currentId, parentId);
        ConnectedLink(memo.nodes, memo.order, currentPath, currentId, parentId, rootCommentId);
        memo.SetParent(currentId, parentId);
        memo.AddChild(parentId, currentId);
        assert memo.nodes == old(memo.nodes)[currentId := old(memo.nodes)[currentId].(parent := Some(parentId))]
                   [parentId := old(memo.nodes)[parentId].(children := old(memo.nodes)[parentId].children + [currentId])];
        top := n - 1;
      } else {
        var parentPath := currentPath[..|currentPath| - 1];
        PlaceholderReady(memo.nodes, memo.order, ps, waiting, rootCommentId, currentId, parentId, parentPath);
        memo.SetParent(currentId, parentId);
        memo.Put(parentId, Placeholder(PlaceholderComment(parentId, parentPath), [currentId], None));
        ghost var mid, midOrder := memo.nodes, memo.order;
        assert memo.nodes == old(memo.nodes)[currentId := old(memo.nodes)[currentId].(parent := Some(parentId))]
                   [parentId := Placeholder(PlaceholderComment(parentId, parentPath), [currentId], None)];
        top := ConnectNodesAndGeneratePlaceholders(memo, parentPath, parentId, rootCommentId, ps, waiting);
        PathNoDups(ps, currentPath);
        ConnectedStep(old(memo.nodes), old(memo.order), mid, midOrder, memo.nodes, memo.order,
                      currentPath, currentId, rootCommentId, top);
      }
    } else {
      ConnectedStop(memo.nodes, memo.order, currentPath, currentId, rootCommentId);
      top := n - 1;
    }
  }

  /**
   * One call changes no comment: the old nodes keep everything but their
   * links, and every node it adds is a placeholder.
   */
  lemma ConnectedKeepsComments(
    nodes0: map<int, CommentNode>, order0: seq<int>, nodes: map<int, CommentNode>, order: seq<int>,
    p: seq<int>, c: int, rootId: Option<int>, top: nat)
    requires Connected(nodes0, order0, nodes, order, p, c, rootId, top)
    ensures forall k | k in nodes0 :: k in nodes && nodes[k].Bare() == nodes0[k].Bare()
    ensures forall k | k in nodes && k !in nodes0 :: nodes[k].Placeholder?
  {
    forall k | k in nodes && k !in nodes0 ensures nodes[k].Placeholder? {
      var j :| top <= j < |p| - 1 && p[j] == k;
      assert HoldsPlaceholder(nodes, p, rootId, top, j);
    }
  }

  /**
   * One call keeps every list of children ranked by `sm`, and the memo order
   * by `im`, when every node it adds has ranks `s` and `t`, `c` has rank `s`,
   * no node already attached outranks `s` and no key already in the memo
   * outranks `t`: the only node appended to an old list of children is `c`
   * or a node the call adds, and the new keys go to the end of the order.
   */
  lemma ConnectedKeepsRanks(
    nodes0: map<int, CommentNode>, order0: seq<int>, nodes: map<int, CommentNode>, order: seq<int>,
    p: seq<int>, c: int, rootId: Option<int>, top: nat, sm: map<int, int>, im: map<int, int>, s: int, t: int)
    requires Connected(nodes0, order0, nodes, order, p, c, rootId, top)
    requires p != [] && Last(p) == c
    requires RankedChildren(nodes0, sm) && RankedList(im, order0)
    requires c in sm && sm[c] == s
    requires forall k, u | k in nodes0 && 0 <= u < |nodes0[k].children| ::
               nodes0[k].children[u] in sm && sm[nodes0[k].children[u]] <= s
    requires forall u | 0 <= u < |order0| :: order0[u] in im && im[order0[u]] <= t
    requires forall k | k in nodes && k !in nodes0 :: k in sm && sm[k] == s && k in im && im[k] == t
    ensures RankedChildren(nodes, sm) && RankedList(im, order)
  {
    forall k | k in nodes ensures RankedNode(nodes, sm, k) {
      if k in nodes0 {
        assert RankedNode(nodes0, sm, k);
        var ch0 := nodes0[k].children;
        if Attached(p, top, rootId) && k == p[top - 1] {
          assert nodes[k].children == ch0 + [p[top]];
          assert top < |p| - 1 ==> p[top] !in nodes0 && p[top] in nodes;
          AppendRanked(sm, ch0, p[top]);
        }
      } else {
        var j :| top <= j < |p| - 1 && p[j] == k;
        assert HoldsPlaceholder(nodes, p, rootId, top, j);
      }
    }
    forall u, v | 0 <= u < v < |order| ensures RankedAt(im, order, u, v) {
      if v < |order0| {
        assert order[u] == order0[u] && order[v] == order0[v];
        assert RankedAt(im, order0, u, v);
      } else {
        AddedKey(nodes0, order0, nodes, order, p, rootId, top, v);
        if u >= |order0| {
          AddedKey(nodes0, order0, nodes, order, p, rootId, top, u);
        } else {
          assert order[u] == order0[u];
        }
      }
    }
  }

  /** A node that ranks no lower than the ranked nodes of a ranked list can be appended to it. */
  lemma AppendRanked(rk: map<int, int>, cs: seq<int>, x: int)
    requires RankedList(rk, cs)
    requires x in rk ==> forall u | 0 <= u < |cs| && cs[u] in rk :: rk[cs[u]] <= rk[x]
    ensures RankedList(rk, cs + [x])
  {
    var s := cs + [x];
    forall u, v | 0 <= u < v < |s| ensures RankedAt(rk, s, u, v) {
      if v < |cs| {
        assert s[u] == cs[u] && s[v] == cs[v];
        assert RankedAt(rk, cs, u, v);
      } else {
        assert s[u] == cs[u] && s[v] == x;
      }
    }
  }

  /** The keys one call appends to the memo order are the nodes it adds. */
  lemma AddedKey(
    nodes0: map<int, CommentNode>, order0: seq<int>, nodes: map<int, CommentNode>, order: seq<int>,
    p: seq<int>, rootId: Option<int>, top: nat, v: int)
    requires WalkStopped(nodes0, p, rootId, top) && KeysAdded(nodes0, order0, nodes, order, p, top)
    requires |order0| <= v < |order|
    ensures order[v] in nodes && order[v] !in nodes0
  {
    var j := |p| - 2 - (v - |order0|);
    assert order[|order0| + (|p| - 2 - j)] == p[j];
  }

  lemma PathNoDups(ps: seq<seq<int>>, p: seq<int>)
    requires Consistent(ps) && InTrie(ps, p)
    ensures NoDups(p)
  {
    forall i, j | 0 <= i < j < |p| ensures p[i] != p[j] {
      TrieDistinct(ps, p, i, j);
    }
  }

  /** Linking a waiting-free node to a present parent settles it and leaves every other node as it was. */
  lemma LinkKeepsState(nodes: map<int, CommentNode>, waiting: set<int>, rootId: Option<int>, c: int, q: int)
    requires c in nodes && q in nodes && c != q && c !in waiting
    requires LinkState(nodes, waiting + {c}, rootId)
    requires NeedsParent(nodes, c, rootId)
    ensures LinkState(nodes[c := nodes[c].(parent := Some(q))][q := nodes[q].(children := nodes[q].children + [c])], waiting, rootId)
  {
    var n2 := nodes[c := nodes[c].(parent := Some(q))][q := nodes[q].(children := nodes[q].children + [c])];
    forall k | k in n2
      ensures (k in waiting ==> n2[k].parent == None) && (k !in waiting ==> Settled(n2, k, rootId))
    {
      assert n2[k].Path() == nodes[k].Path();
    }
  }

  /**
   * Before the walk goes up to a placeholder for the missing parent `q` of
   * `c`: the memo with that placeholder meets what the walk demands of it.
   */
  lemma PlaceholderReady(
    nodes: map<int, CommentNode>, order: seq<int>, ps: seq<seq<int>>, waiting: set<int>, rootId: Option<int>,
    c: int, q: int, qPath: seq<int>)
    requires KeyedBy(nodes, order) && Consistent(ps) && NodesValid(nodes, ps)
    requires c in nodes && c !in waiting && waiting <= nodes.Keys
    requires LinkState(nodes, waiting + {c}, rootId) && NeedsParent(nodes, c, rootId)
    requires q == nodes[c].Path()[|nodes[c].Path()| - 2] && q !in nodes
    requires qPath == nodes[c].Path()[..|nodes[c].Path()| - 1]
    ensures KeyedBy(nodes[c := nodes[c].(parent := Some(q))][q := Placeholder(PlaceholderComment(q, qPath), [c], None)], order + [q])
    ensures NodesValid(nodes[c := nodes[c].(parent := Some(q))][q := Placeholder(PlaceholderComment(q, qPath), [c], None)], ps)
    ensures q !in waiting
    ensures LinkState(nodes[c := nodes[c].(parent := Some(q))][q := Placeholder(PlaceholderComment(q, qPath), [c], None)], waiting + {q}, rootId)
  {
    var path := nodes[c].Path();
    assert LinkState(nodes, waiting + {c}, rootId) ==> nodes[c].parent == None;
    PlaceholderKeepsValid(nodes, ps, c, q);
    PlaceholderKeepsState(nodes, waiting, rootId, c, q, qPath);
    assert q !in order;
    forall i, j | 0 <= i < j < |order + [q]| ensures (order + [q])[i] != (order + [q])[j] {
      if j == |order| {
        assert (order + [q])[i] == order[i] && order[i] in order;
      }
    }
  }

  /** Linking `c` to a new placeholder `q`, which then waits to be linked itself. */
  lemma PlaceholderKeepsState(nodes: map<int, CommentNode>, waiting: set<int>, rootId: Option<int>, c: int, q: int, qPath: seq<int>)
    requires c in nodes && q !in nodes && c !in waiting && waiting <= nodes.Keys
    requires LinkState(nodes, waiting + {c}, rootId)
    requires NeedsParent(nodes, c, rootId)
    ensures q !in waiting
    ensures LinkState(nodes[c := nodes[c].(parent := Some(q))][q := Placeholder(PlaceholderComment(q, qPath), [c], None)],
                      waiting + {q}, rootId)
  {
    var n2 := nodes[c := nodes[c].(parent := Some(q))][q := Placeholder(PlaceholderComment(q, qPath), [c], None)];
    forall k | k in n2
      ensures (k in waiting + {q} ==> n2[k].parent == None) && (k !in waiting + {q} ==> Settled(n2, k, rootId))
    {
      if k != q {
        assert n2[k].Path() == nodes[k].Path();
      }
    }
  }
}
