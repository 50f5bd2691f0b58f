/**
 * The memo once every comment has been linked: each node has the parent its
 * path names, unless it is at the top of its path or is the ancestor the
 * result is restricted to. This module gathers the roots of that forest under
 * one synthetic node (`joinForestUnderSingleRoot`) and proves which nodes the
 * linearisation of that node reaches.
 */
module CommentForest {
  import opened Optional
  import opened CommentPaths
  import opened CommentNodes
  import opened CommentPreorder

  /** Every node of the memo is linked exactly when it needs to be. */
  ghost predicate AllSettled(nodes: map<int, CommentNode>, rootId: Option<int>) {
    forall k | k in nodes :: Settled(nodes, k, rootId)
  }

  /**
   * A node with path `p` belongs to the requested part of the thread: the
   * whole thread, or the replies below the comment `rootId` (strict
   * descendants only).
   */
  ghost predicate InScope(p: seq<int>, rootId: Option<int>) {
    rootId.None? || (p != [] && rootId.value in p[..|p| - 1])
  }

  /**
   * `memo.values.filter { node -> node.parent?.id == ancestorId }`: the keys,
   * in memo order, of the nodes whose parent is `ancestorId` (no parent, when
   * `ancestorId` is `None`).
   */
  function Roots(nodes: map<int, CommentNode>, order: seq<int>, ancestorId: Option<int>): (r: seq<int>)
    ensures forall k :: k in r <==> k in order && k in nodes && nodes[k].parent == ancestorId
    ensures NoDups(order) ==> NoDups(r)
  {
    if order == [] then []
    else
      var init, last := order[..|order| - 1], order[|order| - 1];
      var r0 := Roots(nodes, init, ancestorId);
      assert forall k | k in init :: k in order;
      assert forall k | k in order :: k in init || k == last;
      if last in nodes && nodes[last].parent == ancestorId then
        assert NoDups(order) ==> NoDups(r0 + [last]) by {
          if NoDups(order) {
            assert NoDups(init) && last !in init;
            NoDupsSnoc(r0, last);
          }
        }
        r0 + [last]
      else r0
  }

  /** Filtering keeps the ranked ids in order. */
  lemma {:induction false} RootsRanked(nodes: map<int, CommentNode>, order: seq<int>, ancestorId: Option<int>, rk: map<int, int>)
    requires RankedList(rk, order)
    ensures RankedList(rk, Roots(nodes, order, ancestorId))
    decreases |order|
  {
    if order != [] {
      var init, last := order[..|order| - 1], order[|order| - 1];
      RankedListInit(rk, order);
      RootsRanked(nodes, init, ancestorId, rk);
      var r0 := Roots(nodes, init, ancestorId);
      if last in nodes && nodes[last].parent == ancestorId {
        var r := r0 + [last];
        forall u, v | 0 <= u < v < |r| ensures RankedAt(rk, r, u, v) {
          if v < |r0| {
            assert r[u] == r0[u] && r[v] == r0[v];
            assert RankedAt(rk, r0, u, v);
          } else {
            assert r[u] == r0[u] && r0[u] in r0 && r[v] == last;
            var w :| 0 <= w < |init| && init[w] == r0[u];
            assert RankedAt(rk, order, w, |order| - 1);
          }
        }
      }
    }
  }

  lemma NoDupsSnoc(s: seq<int>, x: int)
    requires NoDups(s) && x !in s
    ensures NoDups(s + [x])
  {
    var t := s + [x];
    forall i, j | 0 <= i < j < |t| ensures t[i] != t[j] {
      if j == |t| - 1 {
        assert t[i] == s[i];
      } else {
        assert t[i] == s[i] && t[j] == s[j];
      }
    }
  }

  /**
   * `joinForestUnderSingleRoot`: a placeholder with id 0 and an empty path
   * whose children are exactly the nodes of the memo whose parent is
   * `ancestorId`, each once, in memo order.
   */
  function JoinForestUnderSingleRoot(ancestorId: Option<int>, memo: Memo): (r: CommentNode)
    reads memo
    ensures r.Placeholder? && r.Id() == 0 && r.Path() == [] && r.parent == None
    ensures memo.Keyed() ==>
              && NoDups(r.children)
              && forall k :: k in r.children <==> k in memo.nodes && memo.nodes[k].parent == ancestorId
  {
    Placeholder(PlaceholderComment(0, []), Roots(memo.nodes, memo.order, ancestorId), None)
  }

  /** A memo of well-formed nodes is a tree of depth at most the longest path. */
  lemma ValidTree(nodes: map<int, CommentNode>, ps: seq<seq<int>>)
    requires Consistent(ps) && NodesValid(nodes, ps)
    ensures Tree(nodes, MaxLen(ps))
  {
    forall k | k in nodes ensures FitsAt(nodes, k, MaxLen(ps)) {
      var n := nodes[k];
      assert NodeOk(nodes, ps, k);
      var a :| 0 <= a < |ps| && IsPrefix(n.Path(), ps[a]);
      forall i | 0 <= i < |n.children|
        ensures ChildAt(nodes, n, i)
      {
        ChildPath(nodes, ps, k, n.children[i]);
      }
      forall i, j | 0 <= i < j < |n.children|
        ensures ApartAt(nodes, n.children, i, j)
      {
        ChildPath(nodes, ps, k, n.children[i]);
        ChildPath(nodes, ps, k, n.children[j]);
        ApartSiblings(n.Path(), n.children[i], n.children[j]);
      }
    }
  }

  /** A node lies in the children list of at most one node: its parent. */
  lemma OneParent(nodes: map<int, CommentNode>, ps: seq<seq<int>>, a: int, b: int, c: int)
    requires NodesValid(nodes, ps)
    requires a in nodes && b in nodes && c in nodes[a].children && c in nodes[b].children
    ensures NodeOk(nodes, ps, a) && a == b && nodes[c].parent == Some(a)
  {
    assert NodeOk(nodes, ps, a) && NodeOk(nodes, ps, b);
  }

  /**
   * Walking up from a linked node: every id of its path from position `j` on
   * is a node of the memo, with the matching prefix as its path, provided the
   * walk does not pass through `rootId`, where linking stops.
   */
  lemma {:induction false} Up(nodes: map<int, CommentNode>, ps: seq<seq<int>>, rootId: Option<int>, k: int, j: nat)
    requires Consistent(ps) && NodesValid(nodes, ps) && AllSettled(nodes, rootId)
    requires k in nodes && j < |nodes[k].Path()|
    requires forall t | j < t < |nodes[k].Path()| :: Some(nodes[k].Path()[t]) != rootId
    ensures nodes[k].Path()[j] in nodes && nodes[nodes[k].Path()[j]].Path() == nodes[k].Path()[..j + 1]
    decreases |nodes[k].Path()|
  {
    var p := nodes[k].Path();
    assert NodeOk(nodes, ps, k);
    if j == |p| - 1 {
      assert p[..j + 1] == p;
    } else {
      assert Settled(nodes, k, rootId) && Some(p[|p| - 1]) != rootId;
      var q := nodes[k].parent.value;
      ParentPath(nodes, ps, k);
      var pq := nodes[q].Path();
      assert pq == p[..|p| - 1];
      forall t | j < t < |pq| ensures Some(pq[t]) != rootId {
        assert pq[t] == p[t];
      }
      Up(nodes, ps, rootId, q, j);
      assert pq[j] == p[j] && pq[..j + 1] == p[..j + 1];
    }
  }

  /**
   * The child of `k` on the way down to a node `m` strictly below it, when no
   * node on the way is the restricting ancestor; returns its index among the
   * children of `k`.
   */
  lemma ChildToward(nodes: map<int, CommentNode>, ps: seq<seq<int>>, rootId: Option<int>, k: int, m: int)
    returns (i: nat)
    requires Consistent(ps) && NodesValid(nodes, ps) && AllSettled(nodes, rootId)
    requires k in nodes && m in nodes && StrictPrefix(nodes[k].Path(), nodes[m].Path())
    requires forall t | |nodes[k].Path()| <= t < |nodes[m].Path()| :: Some(nodes[m].Path()[t]) != rootId
    ensures i < |nodes[k].children| && nodes[k].children[i] in nodes
    ensures nodes[nodes[k].children[i]].Path() == nodes[m].Path()[..|nodes[k].Path()| + 1]
  {
    var pk, pm := nodes[k].Path(), nodes[m].Path();
    assert NodeOk(nodes, ps, k);
    var j := |pk|;
    var c := pm[j];
    Up(nodes, ps, rootId, m, j);
    var pc := nodes[c].Path();
    assert pc == pm[..j + 1];
    assert Settled(nodes, c, rootId);
    assert NodeOk(nodes, ps, c);
    assert pc[|pc| - 2] == pk[|pk| - 1];
    assert c in nodes[k].children;
    i :| 0 <= i < |nodes[k].children| && nodes[k].children[i] == c;
  }

  /**
   * Walking down: a node `m` below `k` is listed by the linearisation of `k`
   * when no node between them, `m` included, is the restricting ancestor.
   */
  lemma {:induction false} Reach(nodes: map<int, CommentNode>, ps: seq<seq<int>>, rootId: Option<int>, bound: nat, k: int, m: int)
    requires Consistent(ps) && NodesValid(nodes, ps) && AllSettled(nodes, rootId) && Tree(nodes, bound)
    requires k in nodes && m in nodes && m != 0 && IsPrefix(nodes[k].Path(), nodes[m].Path())
    requires forall t | |nodes[k].Path()| <= t < |nodes[m].Path()| :: Some(nodes[m].Path()[t]) != rootId
    ensures m in Preorder(nodes, k, bound)
    decreases |nodes[m].Path()| - |nodes[k].Path()|
  {
    var pk, pm := nodes[k].Path(), nodes[m].Path();
    if |pm| == |pk| {
      assert NodeOk(nodes, ps, k) && NodeOk(nodes, ps, m);
      assert pm == pk;
    } else {
      var i := ChildToward(nodes, ps, rootId, k, m);
      var c := nodes[k].children[i];
      Reach(nodes, ps, rootId, bound, c, m);
      assert FitsAt(nodes, k, bound);
      FitsBelow(nodes, nodes[k], bound);
      PreorderAllIncludes(nodes, nodes[k].children, |pk|, bound, i, m);
    }
  }

  /** The path of a node the linking pass parented to the restricting ancestor `x`. */
  lemma RootPath(nodes: map<int, CommentNode>, ps: seq<seq<int>>, x: int, r: int)
    requires Consistent(ps) && NodesValid(nodes, ps)
    requires r in nodes && nodes[r].parent == Some(x)
    ensures NodeOk(nodes, ps, r) && x in nodes && NodeOk(nodes, ps, x)
    ensures nodes[r].Path() == nodes[x].Path() + [r] && Last(nodes[x].Path()) == x
  {
    assert NodeOk(nodes, ps, r);
    assert NodeOk(nodes, ps, x);
    ChildPath(nodes, ps, x, r);
  }

  /** The roots gathered by the join fit under the synthetic root. */
  lemma RootsFit(nodes: map<int, CommentNode>, order: seq<int>, ps: seq<seq<int>>, rootId: Option<int>, root: CommentNode)
    requires Consistent(ps) && NodesValid(nodes, ps) && AllSettled(nodes, rootId) && KeyedBy(nodes, order)
    requires root.Path() == [] && root.children == Roots(nodes, order, rootId)
    ensures Fits(nodes, root, MaxLen(ps))
  {
    var rs := root.children;
    forall i | 0 <= i < |rs| ensures ChildAt(nodes, root, i) {
      assert rs[i] in rs;
      assert NodeOk(nodes, ps, rs[i]);
    }
    forall i, j | 0 <= i < j < |rs| ensures ApartAt(nodes, rs, i, j) {
      RootsApart(nodes, order, ps, rootId, rs[i], rs[j]);
    }
  }

  /** Two different roots of the forest lie in disjoint subtrees. */
  lemma RootsApart(nodes: map<int, CommentNode>, order: seq<int>, ps: seq<seq<int>>, rootId: Option<int>, a: int, b: int)
    requires Consistent(ps) && NodesValid(nodes, ps) && AllSettled(nodes, rootId)
    requires a in nodes && b in nodes && a != b && nodes[a].parent == rootId && nodes[b].parent == rootId
    ensures Apart(nodes[a].Path(), nodes[b].Path())
  {
    assert NodeOk(nodes, ps, a) && NodeOk(nodes, ps, b);
    if rootId.None? {
      assert Settled(nodes, a, rootId) && Settled(nodes, b, rootId);
      assert nodes[a].Path() == [] + [a] && nodes[b].Path() == [] + [b];
      ApartSiblings([], a, b);
    } else {
      RootPath(nodes, ps, rootId.value, a);
      RootPath(nodes, ps, rootId.value, b);
      ApartSiblings(nodes[rootId.value].Path(), a, b);
    }
  }

  /** Everything the linearisation of the joined root lists is a node other than 0, in scope. */
  lemma EmittedInScope(nodes: map<int, CommentNode>, order: seq<int>, ps: seq<seq<int>>, rootId: Option<int>, root: CommentNode, x: int)
    requires Consistent(ps) && NodesValid(nodes, ps) && KeyedBy(nodes, order)
    requires root.Id() == 0 && root.Path() == [] && root.children == Roots(nodes, order, rootId)
    requires Tree(nodes, MaxLen(ps)) && Fits(nodes, root, MaxLen(ps))
    requires x in PreorderOf(nodes, root, MaxLen(ps))
    ensures x in nodes && x != 0 && InScope(nodes[x].Path(), rootId)
  {
    var bound := MaxLen(ps);
    var rs := root.children;
    FitsBelow(nodes, root, bound);
    assert PreorderOf(nodes, root, bound) == PreorderAll(nodes, rs, 0, bound);
    var i := PreorderAllBelow(nodes, rs, 0, bound, x);
    assert rs[i] in rs;
    if rootId.Some? {
      RootScope(nodes, ps, rootId.value, rs[i], x);
    }
  }

  /** A node below a node parented to `x` is a strict descendant of `x`. */
  lemma RootScope(nodes: map<int, CommentNode>, ps: seq<seq<int>>, x: int, r: int, y: int)
    requires Consistent(ps) && NodesValid(nodes, ps)
    requires r in nodes && nodes[r].parent == Some(x)
    requires y in nodes && IsPrefix(nodes[r].Path(), nodes[y].Path())
    ensures InScope(nodes[y].Path(), Some(x))
  {
    var py, pr := nodes[y].Path(), nodes[r].Path();
    RootPath(nodes, ps, x, r);
    var post := |pr| - 2;
    assert pr[post] == x;
    assert py[..|pr|] == pr;
    assert py[..|py| - 1][post] == x;
  }

  /**
   * The root of the joined forest above a node in scope: the top of its path
   * without a restricting ancestor, otherwise the child of that ancestor on
   * the node's path.
   */
  lemma {:induction false} TopOf(nodes: map<int, CommentNode>, order: seq<int>, ps: seq<seq<int>>, rootId: Option<int>, x: int)
    returns (c: int)
    requires Consistent(ps) && NodesValid(nodes, ps) && AllSettled(nodes, rootId) && KeyedBy(nodes, order)
    requires x in nodes && InScope(nodes[x].Path(), rootId)
    ensures c in Roots(nodes, order, rootId) && c in nodes && IsPrefix(nodes[c].Path(), nodes[x].Path())
    ensures forall t | |nodes[c].Path()| <= t < |nodes[x].Path()| :: Some(nodes[x].Path()[t]) != rootId
  {
    if rootId.None? {
      c := TopOfThread(nodes, order, ps, x);
    } else {
      c := TopBelow(nodes, order, ps, rootId.value, x);
    }
  }

  /** Without a restricting ancestor, the root above a node is the head of its path. */
  lemma TopOfThread(nodes: map<int, CommentNode>, order: seq<int>, ps: seq<seq<int>>, x: int) returns (c: int)
    requires Consistent(ps) && NodesValid(nodes, ps) && AllSettled(nodes, None) && KeyedBy(nodes, order)
    requires x in nodes
    ensures c in Roots(nodes, order, None) && c in nodes && IsPrefix(nodes[c].Path(), nodes[x].Path())
  {
    var px := nodes[x].Path();
    assert NodeOk(nodes, ps, x);
    Up(nodes, ps, None, x, 0);
    c := px[0];
    assert nodes[c].Path() == [c];
    assert Settled(nodes, c, None);
  }

  /** Below the ancestor `a`, the root above a node is the child of `a` on its path. */
  lemma TopBelow(nodes: map<int, CommentNode>, order: seq<int>, ps: seq<seq<int>>, a: int, x: int) returns (c: int)
    requires Consistent(ps) && NodesValid(nodes, ps) && AllSettled(nodes, Some(a)) && KeyedBy(nodes, order)
    requires x in nodes && InScope(nodes[x].Path(), Some(a))
    ensures c in Roots(nodes, order, Some(a)) && c in nodes && IsPrefix(nodes[c].Path(), nodes[x].Path())
    ensures forall t | |nodes[c].Path()| <= t < |nodes[x].Path()| :: Some(nodes[x].Path()[t]) != Some(a)
  {
    var px := nodes[x].Path();
    assert NodeOk(nodes, ps, x);
    var s := ScopeIndex(px, a);
    DistinctAfter(ps, px, s);
    Up(nodes, ps, Some(a), x, s + 1);
    c := px[s + 1];
    var pc := nodes[c].Path();
    assert pc == px[..s + 2] && |pc| == s + 2 && pc[s] == a;
    assert Settled(nodes, c, Some(a)) && NodeOk(nodes, ps, c);
  }

  /** Every node other than 0 in scope is listed by the linearisation of the joined root. */
  lemma InScopeEmitted(nodes: map<int, CommentNode>, order: seq<int>, ps: seq<seq<int>>, rootId: Option<int>, root: CommentNode, x: int)
    requires Consistent(ps) && NodesValid(nodes, ps) && AllSettled(nodes, rootId) && KeyedBy(nodes, order)
    requires root.Id() == 0 && root.Path() == [] && root.children == Roots(nodes, order, rootId)
    requires Tree(nodes, MaxLen(ps)) && Fits(nodes, root, MaxLen(ps))
    requires x in nodes && x != 0 && InScope(nodes[x].Path(), rootId)
    ensures x in PreorderOf(nodes, root, MaxLen(ps))
  {
    var bound := MaxLen(ps);
    var rs := root.children;
    FitsBelow(nodes, root, bound);
    var c := TopOf(nodes, order, ps, rootId, x);
    var i :| 0 <= i < |rs| && rs[i] == c;
    Reach(nodes, ps, rootId, bound, c, x);
    PreorderAllIncludes(nodes, rs, 0, bound, i, x);
    assert PreorderOf(nodes, root, bound) == PreorderAll(nodes, rs, 0, bound);
  }

  /** A node of the memo has the path every input path gives it. */
  lemma NodePath(nodes: map<int, CommentNode>, ps: seq<seq<int>>, m: int)
    requires Consistent(ps) && NodesValid(nodes, ps) && m in nodes
    ensures Mentioned(ps, m) && PathTo(ps, m) == nodes[m].Path()
  {
    assert NodeOk(nodes, ps, m);
    var p := nodes[m].Path();
    TrieMentioned(ps, p, |p| - 1);
    TrieUnique(ps, PathTo(ps, m), p);
  }

  /** Every input path is the path of the node stored under its last id. */
  ghost predicate PathsStored(nodes: map<int, CommentNode>, ps: seq<seq<int>>) {
    forall a {:trigger Last(ps[a])} | 0 <= a < |ps| :: ps[a] != [] && Last(ps[a]) in nodes && nodes[Last(ps[a])].Path() == ps[a]
  }

  /** The ids after position `s` of a tree path differ from the one at `s`. */
  lemma DistinctAfter(ps: seq<seq<int>>, p: seq<int>, s: nat)
    requires Consistent(ps) && InTrie(ps, p) && s < |p|
    ensures forall u | s < u < |p| :: p[u] != p[s]
  {
    forall u | s < u < |p| ensures p[u] != p[s] {
      TrieDistinct(ps, p, s, u);
    }
  }

  /** Where the restricting ancestor sits on the path of a node in scope. */
  lemma ScopeIndex(p: seq<int>, x: int) returns (s: nat)
    requires InScope(p, Some(x))
    ensures s < |p| - 1 && p[s] == x
  {
    var q := p[..|p| - 1];
    s :| 0 <= s < |q| && q[s] == x;
  }

  /**
   * Once every input comment is linked, every id the input paths mention is
   * in the memo, as far as the requested part of the thread goes.
   */
  lemma MentionedKey(nodes: map<int, CommentNode>, ps: seq<seq<int>>, rootId: Option<int>, m: int)
    requires Consistent(ps) && NodesValid(nodes, ps) && AllSettled(nodes, rootId)
    requires PathsStored(nodes, ps)
    requires Mentioned(ps, m) && InScope(PathTo(ps, m), rootId)
    ensures m in nodes
  {
    var a, i :| 0 <= a < |ps| && 0 <= i < |ps[a]| && ps[a][i] == m;
    var p := ps[a];
    var k := Last(p);
    assert k in nodes && nodes[k].Path() == p;
    TrieInput(ps, a);
    TriePrefix(ps, p, i + 1);
    TrieUnique(ps, PathTo(ps, m), p[..i + 1]);
    forall t | i < t < |p| ensures Some(p[t]) != rootId {
      if rootId.Some? {
        var s := ScopeIndex(p[..i + 1], rootId.value);
        TrieDistinct(ps, p, s, t);
      }
    }
    Up(nodes, ps, rootId, k, i);
  }

  /**
   * Once every input comment is linked, the memo holds exactly the ids the
   * input paths mention, as far as the requested part of the thread goes.
   */
  lemma KeysInScope(nodes: map<int, CommentNode>, ps: seq<seq<int>>, rootId: Option<int>, m: int)
    requires Consistent(ps) && NodesValid(nodes, ps) && AllSettled(nodes, rootId)
    requires PathsStored(nodes, ps)
    ensures m in nodes && InScope(nodes[m].Path(), rootId) <==> Mentioned(ps, m) && InScope(PathTo(ps, m), rootId)
  {
    if m in nodes {
      NodePath(nodes, ps, m);
    }
    if Mentioned(ps, m) && InScope(PathTo(ps, m), rootId) {
      MentionedKey(nodes, ps, rootId, m);
      NodePath(nodes, ps, m);
    }
  }
}
