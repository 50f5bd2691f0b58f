/**
 * The order in which `linearize` visits the tree: pre-order, a node before
 * its children, children in the order they were attached, and nodes with id
 * 0 (the synthetic root and the post-level root 0) left out. This module
 * defines that order as a function of the memo and proves it lists each node
 * once and keeps every subtree together.
 */
module CommentPreorder {
  import opened Optional
  import opened CommentPaths
  import opened CommentNodes

  /**
   * The shape linearisation relies on: every node carries its key, stays
   * within the depth bound, and its children are distinct nodes strictly
   * below it, in pairwise disjoint subtrees.
   */
  ghost predicate Tree(nodes: map<int, CommentNode>, bound: nat) {
    forall k {:trigger FitsAt(nodes, k, bound)} | k in nodes :: FitsAt(nodes, k, bound)
  }

  /** The node under key `k` carries that key and fits. */
  ghost predicate FitsAt(nodes: map<int, CommentNode>, k: int, bound: nat)
    requires k in nodes
  {
    nodes[k].Id() == k && Fits(nodes, nodes[k], bound)
  }

  /** The children of `n` are nodes strictly below it, in pairwise disjoint subtrees. */
  ghost predicate Fits(nodes: map<int, CommentNode>, n: CommentNode, bound: nat) {
    && |n.Path()| <= bound
    && (forall i {:trigger ChildAt(nodes, n, i)} | 0 <= i < |n.children| :: ChildAt(nodes, n, i))
    && SiblingsApart(nodes, n.children)
  }

  /** Child `i` of `n` is a node strictly below `n`. */
  ghost predicate ChildAt(nodes: map<int, CommentNode>, n: CommentNode, i: int)
    requires 0 <= i < |n.children|
  {
    n.children[i] in nodes && StrictPrefix(n.Path(), nodes[n.children[i]].Path())
  }

  /** The children of a fitting node lie deeper than it. */
  lemma FitsBelow(nodes: map<int, CommentNode>, n: CommentNode, bound: nat)
    requires Fits(nodes, n, bound)
    ensures Below(nodes, n.children, |n.Path()|)
  {
    forall i | 0 <= i < |n.children| ensures n.children[i] in nodes && |nodes[n.children[i]].Path()| > |n.Path()| {
      assert ChildAt(nodes, n, i);
    }
  }

  /** The nodes `cs` all lie deeper than `level`. */
  ghost predicate Below(nodes: map<int, CommentNode>, cs: seq<int>, level: nat) {
    forall i | 0 <= i < |cs| :: cs[i] in nodes && |nodes[cs[i]].Path()| > level
  }

  /** The nodes `cs` lie in pairwise disjoint subtrees. */
  ghost predicate SiblingsApart(nodes: map<int, CommentNode>, cs: seq<int>) {
    forall i, j {:trigger ApartAt(nodes, cs, i, j)} | 0 <= i < j < |cs| :: ApartAt(nodes, cs, i, j)
  }

  /** The nodes at positions `i` and `j` of `cs` lie in disjoint subtrees. */
  ghost predicate ApartAt(nodes: map<int, CommentNode>, cs: seq<int>, i: int, j: int)
    requires 0 <= i < j < |cs|
  {
    cs[i] in nodes && cs[j] in nodes && Apart(nodes[cs[i]].Path(), nodes[cs[j]].Path())
  }

  /** Dropping the last of a list of siblings keeps the rest apart. */
  lemma SiblingsApartInit(nodes: map<int, CommentNode>, cs: seq<int>)
    requires SiblingsApart(nodes, cs) && cs != []
    ensures SiblingsApart(nodes, cs[..|cs| - 1])
  {
    var init := cs[..|cs| - 1];
    forall i, j | 0 <= i < j < |init| ensures ApartAt(nodes, init, i, j) {
      assert ApartAt(nodes, cs, i, j);
    }
  }

  /** `linearize(node, list)` on the node stored under `k`: what it appends to `list`. */
  ghost function Preorder(nodes: map<int, CommentNode>, k: int, bound: nat): seq<int>
    requires Tree(nodes, bound) && k in nodes
    decreases bound - |nodes[k].Path()|, 2, 0
  {
    assert FitsAt(nodes, k, bound);
    PreorderOf(nodes, nodes[k], bound)
  }

  /** `linearize(node, list)`: what it appends to `list`. */
  ghost function PreorderOf(nodes: map<int, CommentNode>, n: CommentNode, bound: nat): seq<int>
    requires Tree(nodes, bound) && Fits(nodes, n, bound)
    decreases bound - |n.Path()|, 1, 0
  {
    FitsBelow(nodes, n, bound);
    (if n.Id() != 0 then [n.Id()] else []) + PreorderAll(nodes, n.children, |n.Path()|, bound)
  }

  /** The linearisations of the nodes `cs`, one after the other. */
  ghost function PreorderAll(nodes: map<int, CommentNode>, cs: seq<int>, level: nat, bound: nat): seq<int>
    requires Tree(nodes, bound) && level <= bound
    requires Below(nodes, cs, level)
    decreases bound - level, 0, |cs|
  {
    if cs == [] then []
    else
      assert FitsAt(nodes, cs[|cs| - 1], bound);
      PreorderAll(nodes, cs[..|cs| - 1], level, bound) + Preorder(nodes, cs[|cs| - 1], bound)
  }

  /** `a` is a proper ancestor of `b`, as their paths say. */
  ghost predicate Anc(nodes: map<int, CommentNode>, a: int, b: int) {
    a in nodes && b in nodes && StrictPrefix(nodes[a].Path(), nodes[b].Path())
  }

  /**
   * `L` is in pre-order: an ancestor comes before its descendants, and
   * everything between an ancestor and one of its descendants is a descendant
   * of that ancestor too (subtrees are contiguous).
   */
  ghost predicate PreOrdered(nodes: map<int, CommentNode>, L: seq<int>) {
    && (forall i, j | 0 <= i < |L| && 0 <= j < |L| && Anc(nodes, L[i], L[j]) :: i < j)
    && (forall i, j, m | 0 <= i < j < m < |L| && Anc(nodes, L[i], L[m]) :: Anc(nodes, L[i], L[j]))
  }

  /** A node stored under its own id, or a node with id 0 that is never listed. */
  ghost predicate Stored(nodes: map<int, CommentNode>, n: CommentNode) {
    n.Id() != 0 ==> n.Id() in nodes && nodes[n.Id()] == n
  }

  /** Appending the linearisation of one more child. */
  lemma PreorderAllSnoc(nodes: map<int, CommentNode>, cs: seq<int>, i: nat, level: nat, bound: nat)
    requires Tree(nodes, bound) && level <= bound && i < |cs|
    requires Below(nodes, cs, level)
    ensures PreorderAll(nodes, cs[..i + 1], level, bound)
            == PreorderAll(nodes, cs[..i], level, bound) + Preorder(nodes, cs[i], bound)
  {
    assert cs[..i + 1][..i] == cs[..i];
  }

  /**
   * Every node a linearisation lists is a node of the memo other than 0, and
   * is the starting node or lies strictly below it.
   */
  lemma {:induction false} PreorderOfBelow(nodes: map<int, CommentNode>, n: CommentNode, bound: nat, x: int)
    requires Tree(nodes, bound) && Fits(nodes, n, bound) && Stored(nodes, n)
    requires x in PreorderOf(nodes, n, bound)
    ensures x in nodes && x != 0
    ensures x == n.Id() || StrictPrefix(n.Path(), nodes[x].Path())
    decreases bound - |n.Path()|, 1, 0
  {
    if !(x == n.Id() && n.Id() != 0) {
      FitsBelow(nodes, n, bound);
      assert x in PreorderAll(nodes, n.children, |n.Path()|, bound);
      var i := PreorderAllBelow(nodes, n.children, |n.Path()|, bound, x);
      assert ChildAt(nodes, n, i);
      PrefixTrans(n.Path(), nodes[n.children[i]].Path(), nodes[x].Path());
    }
  }

  /** The same, for the node stored under `k`. */
  lemma {:induction false} PreorderBelow(nodes: map<int, CommentNode>, k: int, bound: nat, x: int)
    requires Tree(nodes, bound) && k in nodes
    requires x in Preorder(nodes, k, bound)
    ensures x in nodes && x != 0 && IsPrefix(nodes[k].Path(), nodes[x].Path())
    decreases bound - |nodes[k].Path()|, 2, 0
  {
    assert FitsAt(nodes, k, bound);
    PreorderOfBelow(nodes, nodes[k], bound, x);
  }

  /** Every node listed by `PreorderAll` lies below one of the starting nodes; returns the index of that one. */
  lemma {:induction false} PreorderAllBelow(nodes: map<int, CommentNode>, cs: seq<int>, level: nat, bound: nat, x: int)
    returns (i: nat)
    requires Tree(nodes, bound) && level <= bound
    requires Below(nodes, cs, level)
    requires x in PreorderAll(nodes, cs, level, bound)
    ensures i < |cs| && x in Preorder(nodes, cs[i], bound)
    ensures x in nodes && x != 0 && IsPrefix(nodes[cs[i]].Path(), nodes[x].Path())
    decreases bound - level, 0, |cs|
  {
    var init := cs[..|cs| - 1];
    if x in Preorder(nodes, cs[|cs| - 1], bound) {
      PreorderBelow(nodes, cs[|cs| - 1], bound, x);
      i := |cs| - 1;
    } else {
      i := PreorderAllBelow(nodes, init, level, bound, x);
      assert init[i] == cs[i];
    }
  }

  /** Each child's linearisation is part of the linearisation of the list it is in. */
  lemma {:induction false} PreorderAllIncludes(nodes: map<int, CommentNode>, cs: seq<int>, level: nat, bound: nat, i: nat, x: int)
    requires Tree(nodes, bound) && level <= bound && i < |cs|
    requires Below(nodes, cs, level)
    requires x in Preorder(nodes, cs[i], bound)
    ensures x in PreorderAll(nodes, cs, level, bound)
    decreases |cs|
  {
    if i < |cs| - 1 {
      var init := cs[..|cs| - 1];
      assert init[i] == cs[i];
      PreorderAllIncludes(nodes, init, level, bound, i, x);
    }
  }

  lemma NoDupsConcat(a: seq<int>, b: seq<int>)
    requires NoDups(a) && NoDups(b)
    requires forall x | x in a :: x !in b
    ensures NoDups(a + b)
  {
    var s := a + b;
    forall i, j | 0 <= i < j < |s| ensures s[i] != s[j] {
      if i < |a| && j >= |a| {
        assert s[i] in a && s[j] == b[j - |a|];
      } else if j < |a| {
        assert s[i] == a[i] && s[j] == a[j];
      } else {
        assert s[i] == b[i - |a|] && s[j] == b[j - |a|];
      }
    }
  }

  /** A linearisation lists no node twice. */
  lemma {:induction false} PreorderOfNoDups(nodes: map<int, CommentNode>, n: CommentNode, bound: nat)
    requires Tree(nodes, bound) && Fits(nodes, n, bound) && Stored(nodes, n)
    ensures NoDups(PreorderOf(nodes, n, bound))
    decreases bound - |n.Path()|, 1, 0
  {
    FitsBelow(nodes, n, bound);
    var rest := PreorderAll(nodes, n.children, |n.Path()|, bound);
    PreorderAllNoDups(nodes, n.children, |n.Path()|, bound);
    if n.Id() != 0 {
      forall x | x in rest ensures x != n.Id() {
        var i := PreorderAllBelow(nodes, n.children, |n.Path()|, bound, x);
        assert ChildAt(nodes, n, i);
        PrefixTrans(nodes[n.children[i]].Path(), nodes[x].Path(), nodes[x].Path());
      }
      NoDupsConcat([n.Id()], rest);
    }
  }

  lemma {:induction false} PreorderAllNoDups(nodes: map<int, CommentNode>, cs: seq<int>, level: nat, bound: nat)
    requires Tree(nodes, bound) && level <= bound
    requires Below(nodes, cs, level)
    requires SiblingsApart(nodes, cs)
    ensures NoDups(PreorderAll(nodes, cs, level, bound))
    decreases bound - level, 0, |cs|
  {
    if cs != [] {
      var init := cs[..|cs| - 1];
      var last := cs[|cs| - 1];
      SiblingsApartInit(nodes, cs);
      PreorderAllNoDups(nodes, init, level, bound);
      assert FitsAt(nodes, last, bound);
      PreorderOfNoDups(nodes, nodes[last], bound);
      var a := PreorderAll(nodes, init, level, bound);
      var b := Preorder(nodes, last, bound);
      forall x | x in a ensures x !in b {
        var i := PreorderAllBelow(nodes, init, level, bound, x);
        if x in b {
          PreorderBelow(nodes, last, bound, x);
          assert init[i] == cs[i];
          assert ApartAt(nodes, cs, i, |cs| - 1);
          PrefixesComparable(nodes[cs[i]].Path(), nodes[last].Path(), nodes[x].Path());
        }
      }
      NoDupsConcat(a, b);
    }
  }

  /** Two pre-ordered lists whose nodes are pairwise unrelated can be joined. */
  lemma ConcatPreOrdered(nodes: map<int, CommentNode>, a: seq<int>, b: seq<int>)
    requires PreOrdered(nodes, a) && PreOrdered(nodes, b)
    requires forall x, y | x in a && y in b :: !Anc(nodes, x, y) && !Anc(nodes, y, x)
    ensures PreOrdered(nodes, a + b)
  {
    var s := a + b;
    forall i, j | 0 <= i < |s| && 0 <= j < |s| && Anc(nodes, s[i], s[j]) ensures i < j {
      if i < |a| && j < |a| {
        assert s[i] == a[i] && s[j] == a[j];
      } else if i >= |a| && j >= |a| {
        assert s[i] == b[i - |a|] && s[j] == b[j - |a|];
      }
    }
    forall i, j, m | 0 <= i < j < m < |s| && Anc(nodes, s[i], s[m]) ensures Anc(nodes, s[i], s[j]) {
      if m < |a| {
        assert s[i] == a[i] && s[j] == a[j] && s[m] == a[m];
      } else if i >= |a| {
        assert s[i] == b[i - |a|] && s[j] == b[j - |a|] && s[m] == b[m - |a|];
      }
    }
  }

  /** A node in front of a pre-ordered list of its descendants. */
  lemma ConsPreOrdered(nodes: map<int, CommentNode>, k: int, r: seq<int>)
    requires PreOrdered(nodes, r)
    requires forall y | y in r :: Anc(nodes, k, y)
    ensures PreOrdered(nodes, [k] + r)
  {
    var s := [k] + r;
    forall i, j | 0 <= i < |s| && 0 <= j < |s| && Anc(nodes, s[i], s[j]) ensures i < j {
      assert i > 0 ==> s[i] == r[i - 1] && s[i] in r;
      assert j > 0 ==> s[j] == r[j - 1];
    }
    forall i, j, m | 0 <= i < j < m < |s| && Anc(nodes, s[i], s[m]) ensures Anc(nodes, s[i], s[j]) {
      if i > 0 {
        assert s[i] == r[i - 1] && s[j] == r[j - 1] && s[m] == r[m - 1];
      } else {
        assert s[j] in r;
      }
    }
  }

  /** A linearisation is in pre-order. */
  lemma {:induction false} PreorderOfOrdered(nodes: map<int, CommentNode>, n: CommentNode, bound: nat)
    requires Tree(nodes, bound) && Fits(nodes, n, bound) && Stored(nodes, n)
    ensures PreOrdered(nodes, PreorderOf(nodes, n, bound))
    decreases bound - |n.Path()|, 1, 0
  {
    FitsBelow(nodes, n, bound);
    var rest := PreorderAll(nodes, n.children, |n.Path()|, bound);
    PreorderAllOrdered(nodes, n.children, |n.Path()|, bound);
    if n.Id() != 0 {
      forall y | y in rest ensures Anc(nodes, n.Id(), y) {
        var i := PreorderAllBelow(nodes, n.children, |n.Path()|, bound, y);
        assert ChildAt(nodes, n, i);
        PrefixTrans(n.Path(), nodes[n.children[i]].Path(), nodes[y].Path());
      }
      ConsPreOrdered(nodes, n.Id(), rest);
    }
  }

  lemma {:induction false} PreorderAllOrdered(nodes: map<int, CommentNode>, cs: seq<int>, level: nat, bound: nat)
    requires Tree(nodes, bound) && level <= bound
    requires Below(nodes, cs, level)
    requires SiblingsApart(nodes, cs)
    ensures PreOrdered(nodes, PreorderAll(nodes, cs, level, bound))
    decreases bound - level, 0, |cs|
  {
    if cs != [] {
      var init := cs[..|cs| - 1];
      var last := cs[|cs| - 1];
      SiblingsApartInit(nodes, cs);
      PreorderAllOrdered(nodes, init, level, bound);
      assert FitsAt(nodes, last, bound);
      PreorderOfOrdered(nodes, nodes[last], bound);
      var a := PreorderAll(nodes, init, level, bound);
      var b := Preorder(nodes, last, bound);
      forall x, y | x in a && y in b ensures !Anc(nodes, x, y) && !Anc(nodes, y, x) {
        var i := PreorderAllBelow(nodes, init, level, bound, x);
        PreorderBelow(nodes, last, bound, y);
        assert init[i] == cs[i];
        assert ApartAt(nodes, cs, i, |cs| - 1);
        ApartBelow(nodes[cs[i]].Path(), nodes[last].Path(), nodes[x].Path(), nodes[y].Path());
      }
      ConcatPreOrdered(nodes, a, b);
    }
  }

  /** The ids of `cs` that `rk` ranks appear in non-decreasing rank. */
  ghost predicate RankedList(rk: map<int, int>, cs: seq<int>) {
    forall u, v {:trigger RankedAt(rk, cs, u, v)} | 0 <= u < v < |cs| :: RankedAt(rk, cs, u, v)
  }

  ghost predicate RankedAt(rk: map<int, int>, cs: seq<int>, u: int, v: int)
    requires 0 <= u < v < |cs|
  {
    cs[u] in rk && cs[v] in rk ==> rk[cs[u]] <= rk[cs[v]]
  }

  /** Every list of children in the memo is ranked. */
  ghost predicate RankedChildren(nodes: map<int, CommentNode>, rk: map<int, int>) {
    forall k {:trigger RankedNode(nodes, rk, k)} | k in nodes :: RankedNode(nodes, rk, k)
  }

  ghost predicate RankedNode(nodes: map<int, CommentNode>, rk: map<int, int>, k: int)
    requires k in nodes
  {
    RankedList(rk, nodes[k].children)
  }

  /** Every list of children of a node at depth `from` or deeper is ranked. */
  ghost predicate RankedFrom(nodes: map<int, CommentNode>, rk: map<int, int>, from: nat) {
    forall k {:trigger RankedNode(nodes, rk, k)} | k in nodes && |nodes[k].Path()| >= from :: RankedNode(nodes, rk, k)
  }

  /** Every node's path ends in its own key. */
  ghost predicate PathsEnd(nodes: map<int, CommentNode>) {
    forall k {:trigger PathEndsAt(nodes, k)} | k in nodes :: PathEndsAt(nodes, k)
  }

  ghost predicate PathEndsAt(nodes: map<int, CommentNode>, k: int)
    requires k in nodes
  {
    nodes[k].Path() != [] && Last(nodes[k].Path()) == k
  }

  /** Of two ranked siblings listed in `L`, the one of lower rank comes first. */
  ghost predicate SiblingsByRank(nodes: map<int, CommentNode>, rk: map<int, int>, L: seq<int>) {
    forall i, j {:trigger SiblingRankAt(nodes, rk, L, i, j)} | 0 <= i < |L| && 0 <= j < |L| :: SiblingRankAt(nodes, rk, L, i, j)
  }

  ghost predicate SiblingRankAt(nodes: map<int, CommentNode>, rk: map<int, int>, L: seq<int>, i: int, j: int)
    requires 0 <= i < |L| && 0 <= j < |L|
  {
    L[i] in nodes && L[j] in nodes && L[i] in rk && L[j] in rk
    && SameParent(nodes[L[i]].Path(), nodes[L[j]].Path()) && rk[L[i]] < rk[L[j]]
    ==> i < j
  }

  /**
   * Of two entries of `L` at or below two ranked siblings `a` and `b`, the
   * one under the lower-ranked sibling comes first. The siblings need not be
   * listed themselves.
   */
  ghost predicate SubtreesByRank(nodes: map<int, CommentNode>, rk: map<int, int>, L: seq<int>) {
    forall i, j, a, b {:trigger SubtreeRankAt(nodes, rk, L, i, j, a, b)} | 0 <= i < |L| && 0 <= j < |L| ::
      SubtreeRankAt(nodes, rk, L, i, j, a, b)
  }

  ghost predicate SubtreeRankAt(nodes: map<int, CommentNode>, rk: map<int, int>, L: seq<int>, i: int, j: int, a: int, b: int)
    requires 0 <= i < |L| && 0 <= j < |L|
  {
    L[i] in nodes && L[j] in nodes && a in nodes && b in nodes && a in rk && b in rk
    && IsPrefix(nodes[a].Path(), nodes[L[i]].Path()) && IsPrefix(nodes[b].Path(), nodes[L[j]].Path())
    && SameParent(nodes[a].Path(), nodes[b].Path()) && rk[a] < rk[b]
    ==> i < j
  }

  /** The nodes `cs` are siblings: their paths differ in the last id only. */
  ghost predicate Alike(nodes: map<int, CommentNode>, cs: seq<int>) {
    forall u, v {:trigger AlikeAt(nodes, cs, u, v)} | 0 <= u < v < |cs| :: AlikeAt(nodes, cs, u, v)
  }

  ghost predicate AlikeAt(nodes: map<int, CommentNode>, cs: seq<int>, u: int, v: int)
    requires 0 <= u < v < |cs|
  {
    cs[u] in nodes && cs[v] in nodes && SameParent(nodes[cs[u]].Path(), nodes[cs[v]].Path())
  }

  /** Every child lies one level below its parent. */
  ghost predicate Immediate(nodes: map<int, CommentNode>) {
    forall k {:trigger ImmediateAt(nodes, k)} | k in nodes :: ImmediateAt(nodes, k)
  }

  ghost predicate ImmediateAt(nodes: map<int, CommentNode>, k: int)
    requires k in nodes
  {
    forall u | 0 <= u < |nodes[k].children| ::
      nodes[k].children[u] in nodes && |nodes[nodes[k].children[u]].Path()| == |nodes[k].Path()| + 1
  }

  /** Listed siblings are their own subtrees' tops. */
  lemma SubtreesSiblings(nodes: map<int, CommentNode>, rk: map<int, int>, L: seq<int>)
    requires SubtreesByRank(nodes, rk, L)
    ensures SiblingsByRank(nodes, rk, L)
  {
    forall i, j | 0 <= i < |L| && 0 <= j < |L| ensures SiblingRankAt(nodes, rk, L, i, j) {
      assert SubtreeRankAt(nodes, rk, L, i, j, L[i], L[j]);
    }
  }

  /** The children of a node one level below it are siblings. */
  lemma ImmediateAlike(nodes: map<int, CommentNode>, bound: nat, k: int)
    requires Tree(nodes, bound) && Immediate(nodes) && k in nodes
    ensures Alike(nodes, nodes[k].children)
  {
    var n := nodes[k];
    assert FitsAt(nodes, k, bound) && ImmediateAt(nodes, k);
    forall u, v | 0 <= u < v < |n.children| ensures AlikeAt(nodes, n.children, u, v) {
      assert ChildAt(nodes, n, u) && ChildAt(nodes, n, v);
      var p, q := nodes[n.children[u]].Path(), nodes[n.children[v]].Path();
      assert p[..|p| - 1] == n.Path() == q[..|q| - 1];
    }
  }

  lemma AlikeInit(nodes: map<int, CommentNode>, cs: seq<int>)
    requires Alike(nodes, cs) && cs != []
    ensures Alike(nodes, cs[..|cs| - 1])
  {
    var init := cs[..|cs| - 1];
    forall u, v | 0 <= u < v < |init| ensures AlikeAt(nodes, init, u, v) {
      assert AlikeAt(nodes, cs, u, v);
    }
  }

  /** Two ids whose paths meet a common path at the same depth are one id. */
  lemma SameSpot(nodes: map<int, CommentNode>, a: int, b: int, x: seq<int>, z: seq<int>)
    requires a in nodes && b in nodes && PathEndsAt(nodes, a) && PathEndsAt(nodes, b)
    requires IsPrefix(nodes[a].Path(), x) && IsPrefix(nodes[b].Path(), z) && IsPrefix(z, x)
    requires |nodes[a].Path()| == |nodes[b].Path()|
    ensures a == b
  {
    var pa, pb := nodes[a].Path(), nodes[b].Path();
    assert pb == z[..|pb|] == x[..|pb|] == pa;
  }

  /**
   * Sibling paths on the paths below two apart siblings `pi` and `pl` are
   * one path, or are `pi` and `pl` themselves.
   */
  lemma SiblingTops(pi: seq<int>, pl: seq<int>, x: seq<int>, y: seq<int>, pd: seq<int>, pc: seq<int>)
    requires SameParent(pi, pl) && Apart(pi, pl)
    requires IsPrefix(pi, x) && IsPrefix(pl, y) && IsPrefix(pd, x) && IsPrefix(pc, y) && SameParent(pc, pd)
    ensures pc == pd || (pd == pi && pc == pl)
  {
    var n, d := |pi|, |pd|;
    if d < n {
      assert pd == x[..d] == pi[..d] == pi[..n - 1][..d] == pl[..n - 1][..d] == pl[..d] == y[..d] == pc;
    } else if d == n {
      assert pd == x[..n] == pi && pc == y[..n] == pl;
    } else {
      SameTop(pi, pl, x, y, pd, pc);
      assert false;
    }
  }

  /** Sibling paths deeper than `pi` and `pl` on the paths below them make the two one path. */
  lemma SameTop(pi: seq<int>, pl: seq<int>, x: seq<int>, y: seq<int>, pd: seq<int>, pc: seq<int>)
    requires |pi| == |pl| < |pd|
    requires IsPrefix(pi, x) && IsPrefix(pl, y) && IsPrefix(pd, x) && IsPrefix(pc, y) && SameParent(pc, pd)
    ensures pi == pl
  {
    var n, d := |pi|, |pd|;
    assert pi == x[..n] == pd[..n] == pd[..d - 1][..n] == pc[..d - 1][..n] == pc[..n] == y[..n] == pl;
  }

  /** In front of a list of its descendants, a node keeps subtrees in rank order. */
  lemma ConsSubtrees(nodes: map<int, CommentNode>, rk: map<int, int>, k: int, r: seq<int>)
    requires SubtreesByRank(nodes, rk, r) && k in nodes && PathsEnd(nodes)
    requires forall y | y in r :: y in nodes && IsPrefix(nodes[k].Path(), nodes[y].Path())
    ensures SubtreesByRank(nodes, rk, [k] + r)
  {
    var s := [k] + r;
    forall i, j, a, b | 0 <= i < |s| && 0 <= j < |s| ensures SubtreeRankAt(nodes, rk, s, i, j, a, b) {
      if i > 0 && j > 0 {
        assert s[i] == r[i - 1] && s[j] == r[j - 1];
        assert SubtreeRankAt(nodes, rk, r, i - 1, j - 1, a, b);
      } else if j == 0 && a in nodes && b in nodes && s[i] in nodes
                && IsPrefix(nodes[a].Path(), nodes[s[i]].Path()) && IsPrefix(nodes[b].Path(), nodes[k].Path())
                && SameParent(nodes[a].Path(), nodes[b].Path()) {
        assert i > 0 ==> s[i] == r[i - 1] && s[i] in r;
        assert IsPrefix(nodes[k].Path(), nodes[s[i]].Path());
        assert PathEndsAt(nodes, a) && PathEndsAt(nodes, b);
        SameSpot(nodes, a, b, nodes[s[i]].Path(), nodes[k].Path());
      }
    }
  }

  /** No subtree of the first list ranks above its sibling subtree in the second. */
  ghost predicate CrossRanked(nodes: map<int, CommentNode>, rk: map<int, int>, A: seq<int>, B: seq<int>) {
    forall x, y, c, d {:trigger CrossAt(nodes, rk, A, B, x, y, c, d)} :: CrossAt(nodes, rk, A, B, x, y, c, d)
  }

  ghost predicate CrossAt(nodes: map<int, CommentNode>, rk: map<int, int>, A: seq<int>, B: seq<int>, x: int, y: int, c: int, d: int) {
    x in A && y in B && x in nodes && y in nodes && c in nodes && d in nodes && c in rk && d in rk
    && IsPrefix(nodes[d].Path(), nodes[x].Path()) && IsPrefix(nodes[c].Path(), nodes[y].Path())
    && SameParent(nodes[c].Path(), nodes[d].Path())
    ==> rk[d] <= rk[c]
  }

  /** Two lists in subtree rank order, the second never ranking below the first, joined. */
  lemma ConcatSubtrees(nodes: map<int, CommentNode>, rk: map<int, int>, A: seq<int>, B: seq<int>)
    requires SubtreesByRank(nodes, rk, A) && SubtreesByRank(nodes, rk, B) && CrossRanked(nodes, rk, A, B)
    ensures SubtreesByRank(nodes, rk, A + B)
  {
    var s := A + B;
    forall i, j, a, b | 0 <= i < |s| && 0 <= j < |s| ensures SubtreeRankAt(nodes, rk, s, i, j, a, b) {
      if i < |A| && j < |A| {
        assert s[i] == A[i] && s[j] == A[j];
        assert SubtreeRankAt(nodes, rk, A, i, j, a, b);
      } else if i >= |A| && j >= |A| {
        assert s[i] == B[i - |A|] && s[j] == B[j - |A|];
        assert SubtreeRankAt(nodes, rk, B, i - |A|, j - |A|, a, b);
      } else if i >= |A| {
        assert s[i] == B[i - |A|] && s[i] in B && s[j] == A[j] && s[j] in A;
        assert CrossAt(nodes, rk, A, B, s[j], s[i], a, b);
      }
    }
  }

  /** A ranked list stays ranked under a rank map that agrees on its entries. */
  lemma RankedListSame(rk: map<int, int>, rk2: map<int, int>, cs: seq<int>)
    requires RankedList(rk, cs)
    requires forall u | 0 <= u < |cs| :: cs[u] in rk && cs[u] in rk2 && rk2[cs[u]] == rk[cs[u]]
    ensures RankedList(rk2, cs)
  {
    forall u, v | 0 <= u < v < |cs| ensures RankedAt(rk2, cs, u, v) {
      assert RankedAt(rk, cs, u, v);
    }
  }

  lemma RankedListInit(rk: map<int, int>, cs: seq<int>)
    requires RankedList(rk, cs) && cs != []
    ensures RankedList(rk, cs[..|cs| - 1])
  {
    var init := cs[..|cs| - 1];
    forall u, v | 0 <= u < v < |init| ensures RankedAt(rk, init, u, v) {
      assert RankedAt(rk, cs, u, v);
    }
  }

  /**
   * When every list of children from depth `from` on is ranked, every child
   * lies one level below its parent, and the children of `n` are ranked
   * siblings at depth `from` or deeper, a linearisation of `n` lists the
   * subtrees of ranked siblings in order of rank, and so the siblings too.
   */
  lemma {:induction false} PreorderOfRanked(nodes: map<int, CommentNode>, rk: map<int, int>, n: CommentNode, bound: nat, from: nat)
    requires Tree(nodes, bound) && Fits(nodes, n, bound) && Stored(nodes, n)
    requires PathsEnd(nodes) && Immediate(nodes) && RankedFrom(nodes, rk, from) && RankedList(rk, n.children)
    requires Alike(nodes, n.children)
    requires forall i | 0 <= i < |n.children| :: n.children[i] in nodes && |nodes[n.children[i]].Path()| >= from
    ensures SubtreesByRank(nodes, rk, PreorderOf(nodes, n, bound))
    ensures SiblingsByRank(nodes, rk, PreorderOf(nodes, n, bound))
    decreases bound - |n.Path()|, 1, 0
  {
    FitsBelow(nodes, n, bound);
    var rest := PreorderAll(nodes, n.children, |n.Path()|, bound);
    PreorderAllRanked(nodes, rk, n.children, |n.Path()|, bound, from);
    if n.Id() != 0 {
      forall y | y in rest ensures y in nodes && IsPrefix(nodes[n.Id()].Path(), nodes[y].Path()) {
        var i := PreorderAllBelow(nodes, n.children, |n.Path()|, bound, y);
        assert ChildAt(nodes, n, i);
        PrefixTrans(n.Path(), nodes[n.children[i]].Path(), nodes[y].Path());
      }
      ConsSubtrees(nodes, rk, n.Id(), rest);
    } else {
      assert [] + rest == rest;
    }
    SubtreesSiblings(nodes, rk, PreorderOf(nodes, n, bound));
  }

  lemma {:induction false} PreorderAllRanked(nodes: map<int, CommentNode>, rk: map<int, int>, cs: seq<int>, level: nat, bound: nat, from: nat)
    requires Tree(nodes, bound) && level <= bound
    requires Below(nodes, cs, level)
    requires SiblingsApart(nodes, cs) && Alike(nodes, cs)
    requires PathsEnd(nodes) && Immediate(nodes) && RankedFrom(nodes, rk, from) && RankedList(rk, cs)
    requires forall i | 0 <= i < |cs| :: |nodes[cs[i]].Path()| >= from
    ensures SubtreesByRank(nodes, rk, PreorderAll(nodes, cs, level, bound))
    decreases bound - level, 0, |cs|
  {
    if cs != [] {
      var init := cs[..|cs| - 1];
      var last := cs[|cs| - 1];
      SiblingsApartInit(nodes, cs);
      AlikeInit(nodes, cs);
      RankedListInit(rk, cs);
      PreorderAllRanked(nodes, rk, init, level, bound, from);
      assert FitsAt(nodes, last, bound);
      assert RankedNode(nodes, rk, last);
      var n := nodes[last];
      forall i | 0 <= i < |n.children| ensures n.children[i] in nodes && |nodes[n.children[i]].Path()| >= from {
        assert ChildAt(nodes, n, i);
      }
      ImmediateAlike(nodes, bound, last);
      PreorderOfRanked(nodes, rk, n, bound, from);
      var A := PreorderAll(nodes, init, level, bound);
      var B := Preorder(nodes, last, bound);
      forall x, y, c, d ensures CrossAt(nodes, rk, A, B, x, y, c, d) {
        if x in A && y in B && x in nodes && y in nodes && c in nodes && d in nodes
           && IsPrefix(nodes[d].Path(), nodes[x].Path()) && IsPrefix(nodes[c].Path(), nodes[y].Path())
           && SameParent(nodes[c].Path(), nodes[d].Path()) {
          var i := PreorderAllBelow(nodes, init, level, bound, x);
          PreorderBelow(nodes, last, bound, y);
          assert init[i] == cs[i];
          assert ApartAt(nodes, cs, i, |cs| - 1) && AlikeAt(nodes, cs, i, |cs| - 1);
          SiblingTops(nodes[cs[i]].Path(), nodes[last].Path(), nodes[x].Path(), nodes[y].Path(),
                      nodes[d].Path(), nodes[c].Path());
          assert PathEndsAt(nodes, c) && PathEndsAt(nodes, d) && PathEndsAt(nodes, cs[i]) && PathEndsAt(nodes, last);
          assert RankedAt(rk, cs, i, |cs| - 1);
        }
      }
      ConcatSubtrees(nodes, rk, A, B);
    }
  }
}
