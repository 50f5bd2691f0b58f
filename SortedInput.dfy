/**
 * Re-sorting a thread that is already in nested order. When every comment
 * hangs below the post (path starting with 0) and every ancestor a path names
 * is itself in the input, the nested order whose siblings keep input order is
 * unique; so `sortToNestedOrder` hands such an input back unchanged.
 */
module SortedInput {
  import opened Optional
  import opened Comments
  import opened CommentPaths
  import opened CommentNodes
  import opened CommentForest
  import opened CommentInput
  import opened CommentSort

  /**
   * No comment is the post itself; every path starts at the post; every id
   * a path names is the post or a comment of the input: no ancestor is missing.
   */
  ghost predicate GapFree(cs: seq<CommentModel>) {
    && (forall k | 0 <= k < |cs| :: cs[k].id != 0 && cs[k].path != [] && cs[k].path[0] == 0)
    && (forall m | Mentioned(Paths(cs), m) :: m == 0 || m in InputIds(cs))
  }

  /**
   * The place of comment `u` before comment `v` in nested order, stated on the
   * paths alone: `u` is an ancestor of `v`, or `u` lies below a comment that
   * comes earlier in the input than a sibling of it that `v` lies below.
   */
  ghost predicate Before(cs: seq<CommentModel>, u: int, v: int)
    requires 0 <= u < |cs| && 0 <= v < |cs|
  {
    || StrictPrefix(cs[u].path, cs[v].path)
    || exists a, b | 0 <= a < b < |cs| ::
         SameParent(cs[a].path, cs[b].path) && IsPrefix(cs[a].path, cs[u].path) && IsPrefix(cs[b].path, cs[v].path)
  }

  /** The length of the longest common prefix of two paths. */
  function CommonLen(p: seq<int>, q: seq<int>): (n: nat)
    ensures n <= |p| && n <= |q| && p[..n] == q[..n]
    ensures n < |p| && n < |q| ==> p[n] != q[n]
  {
    if p == [] || q == [] || p[0] != q[0] then 0
    else
      var n := CommonLen(p[1..], q[1..]);
      assert p[..n + 1] == [p[0]] + p[1..][..n];
      assert q[..n + 1] == [q[0]] + q[1..][..n];
      1 + n
  }

  /** The paths of two different input comments are different. */
  lemma DistinctPaths(cs: seq<CommentModel>, a: int, b: int)
    requires WellFormed(cs) && 0 <= a < |cs| && 0 <= b < |cs| && a != b
    ensures cs[a].path != cs[b].path
  {
    assert cs[a].id != cs[b].id;
    assert Last(cs[a].path) == cs[a].id && Last(cs[b].path) == cs[b].id;
  }

  /** Siblings apart from each other. */
  lemma SiblingsApartInput(cs: seq<CommentModel>, a: int, b: int)
    requires WellFormed(cs) && 0 <= a < |cs| && 0 <= b < |cs| && a != b
    requires SameParent(cs[a].path, cs[b].path)
    ensures Apart(cs[a].path, cs[b].path)
  {
    DistinctPaths(cs, a, b);
    assert cs[a].path == cs[a].path[..|cs[a].path|];
    assert cs[b].path == cs[b].path[..|cs[b].path|];
  }

  /**
   * In any nested order of the whole input whose siblings keep input order,
   * a comment placed `Before` another comes first.
   */
  lemma BeforeFirst(cs: seq<CommentModel>, L: seq<int>, u: int, v: int, p: int, q: int)
    requires WellFormed(cs) && NoDups(L)
    requires forall k | 0 <= k < |cs| :: cs[k].id in L
    requires NestedOrder(Paths(cs), L) && SiblingsInInputOrder(cs, L)
    requires 0 <= u < |cs| && 0 <= v < |cs| && 0 <= p < |L| && 0 <= q < |L|
    requires L[p] == cs[u].id && L[q] == cs[v].id
    requires Before(cs, u, v)
    ensures p < q
  {
    InputPath(cs, u);
    InputPath(cs, v);
    if StrictPrefix(cs[u].path, cs[v].path) {
      assert AncestorFirst(Paths(cs), L, p, q);
    } else {
      var a, b :| 0 <= a < b < |cs| && SameParent(cs[a].path, cs[b].path)
        && IsPrefix(cs[a].path, cs[u].path) && IsPrefix(cs[b].path, cs[v].path);
      assert cs[a].id in L && cs[b].id in L;
      var i :| 0 <= i < |L| && L[i] == cs[a].id;
      var j :| 0 <= j < |L| && L[j] == cs[b].id;
      assert InputOrderAt(cs, L, a, b, i, j);
      SiblingsApartInput(cs, a, b);
      InputPath(cs, a);
      InputPath(cs, b);
      BelowSiblingsFirst(Paths(cs), L, cs[a].path, cs[b].path, cs[u].path, cs[v].path, i, j, p, q);
    }
  }

  /** The apart case of `BeforeFirst`: the subtree of the earlier sibling comes first, as a block. */
  lemma BelowSiblingsFirst(ps: seq<seq<int>>, L: seq<int>, x: seq<int>, y: seq<int>, pu: seq<int>, pv: seq<int>,
                           i: int, j: int, p: int, q: int)
    requires NoDups(L) && NestedOrder(ps, L)
    requires 0 <= i < j < |L| && 0 <= p < |L| && 0 <= q < |L|
    requires ListedAt(ps, L, i, x) && ListedAt(ps, L, j, y) && ListedAt(ps, L, p, pu) && ListedAt(ps, L, q, pv)
    requires Apart(x, y) && IsPrefix(x, pu) && IsPrefix(y, pv)
    ensures p < q
  {
    if x == pu {
      assert L[i] == L[p];
    } else {
      assert AncestorFirst(ps, L, i, p);
    }
    if y == pv {
      assert L[j] == L[q];
    } else {
      assert AncestorFirst(ps, L, j, q);
    }
    if q < p {
      assert i < p && x != pu;
      assert SubtreeContiguous(ps, L, i, q, p);
      PrefixesComparable(x, y, pv);
    }
  }

  /** Entry `k` of `L` is the node of the tree of `ps` with path `p`. */
  ghost predicate ListedAt(ps: seq<seq<int>>, L: seq<int>, k: int, p: seq<int>)
    requires 0 <= k < |L|
  {
    p != [] && L[k] == Last(p) && Mentioned(ps, L[k]) && PathTo(ps, L[k]) == p
  }

  /** Of two different comments of a gap-free input, one is placed `Before` the other. */
  lemma BeforeTotal(cs: seq<CommentModel>, u: int, v: int)
    requires WellFormed(cs) && GapFree(cs)
    requires 0 <= u < |cs| && 0 <= v < |cs| && u != v
    ensures Before(cs, u, v) || Before(cs, v, u)
  {
    var px, py := cs[u].path, cs[v].path;
    DistinctPaths(cs, u, v);
    if IsPrefix(px, py) {
      assert px != py[..|py|];
    } else if IsPrefix(py, px) {
      assert py != px[..|px|];
    } else {
      var d := CommonLen(px, py);
      assert d < |px| && d < |py|;
      assert px[0] == 0 && py[0] == 0;
      var a := ForkComment(cs, u, d);
      var b := ForkComment(cs, v, d);
      assert px[d] != py[d];
      assert SameParent(cs[a].path, cs[b].path) by {
        assert cs[a].path[..d] == px[..d] && cs[b].path[..d] == py[..d];
      }
      if a < b {
        assert Before(cs, u, v);
      } else {
        assert Before(cs, v, u);
      }
    }
  }

  /** Below the post, the ancestor at depth `d` of a gap-free input comment is an input comment. */
  lemma ForkComment(cs: seq<CommentModel>, u: int, d: int) returns (a: int)
    requires WellFormed(cs) && GapFree(cs)
    requires 0 <= u < |cs| && 0 < d < |cs[u].path|
    ensures 0 <= a < |cs| && cs[a].id == cs[u].path[d] && cs[a].path == cs[u].path[..d + 1]
  {
    var ps, p := Paths(cs), cs[u].path;
    InputPath(cs, u);
    TrieDistinct(ps, p, 0, d);
    TrieMentioned(ps, p, d);
    a :| 0 <= a < |cs| && cs[a].id == p[d];
    TriePrefix(ps, p, d + 1);
    InputPath(cs, a);
    TrieUnique(ps, cs[a].path, p[..d + 1]);
  }

  /** Two lists of the same distinct ids that order every pair alike are equal. */
  lemma {:induction false} SameOrder(L1: seq<int>, L2: seq<int>)
    requires NoDups(L1) && NoDups(L2) && (forall x :: x in L1 <==> x in L2)
    requires forall i, j, k, l | 0 <= i < j < |L1| && 0 <= k < |L2| && 0 <= l < |L2| && L1[i] == L2[k] && L1[j] == L2[l] :: k < l
    ensures L1 == L2
    decreases |L1|
  {
    EmptyTogether(L1, L2);
    if L1 != [] {
      assert L1[0] in L1 && L2[0] in L2;
      var j :| 0 <= j < |L1| && L1[j] == L2[0];
      assert j == 0;
      var T1, T2 := L1[1..], L2[1..];
      forall x ensures x in T1 <==> x in T2 {
        if x in T1 {
          TailMember(L1, L2, x);
        }
        if x in T2 {
          TailMember(L2, L1, x);
        }
      }
      forall i, j, k, l | 0 <= i < j < |T1| && 0 <= k < |T2| && 0 <= l < |T2| && T1[i] == T2[k] && T1[j] == T2[l]
        ensures k < l
      {
        assert L1[i + 1] == L2[k + 1] && L1[j + 1] == L2[l + 1];
      }
      SameOrder(T1, T2);
      assert L1 == [L1[0]] + T1 && L2 == [L2[0]] + T2;
    }
  }

  /** Lists with the same elements are empty together. */
  lemma EmptyTogether(L1: seq<int>, L2: seq<int>)
    requires forall x :: x in L1 <==> x in L2
    ensures L1 == [] <==> L2 == []
  {
    if L1 != [] {
      var y := L1[0];
      assert y in L1 && y in L2;
    }
    if L2 != [] {
      var y := L2[0];
      assert y in L2 && y in L1;
    }
  }

  /** Below a shared head, what the tail of one list holds the tail of the other holds. */
  lemma TailMember(L1: seq<int>, L2: seq<int>, x: int)
    requires NoDups(L1) && L1 != [] && L2 != [] && L1[0] == L2[0] && (forall y :: y in L1 <==> y in L2)
    requires x in L1[1..]
    ensures x in L2[1..]
  {
    var i :| 0 <= i < |L1| - 1 && L1[1..][i] == x;
    assert L1[i + 1] == x && x in L1 && x != L1[0];
    var k :| 0 <= k < |L2| && L2[k] == x;
    assert L2[1..][k - 1] == x;
  }

  /** With no ancestor, the ids a result lists are those of a gap-free input. */
  lemma SameIds(cs: seq<CommentModel>, r: seq<CommentModel>)
    requires WellFormed(cs) && GapFree(cs)
    requires forall m :: m in IdsOf(r) <==> m != 0 && Mentioned(Paths(cs), m) && InScope(PathTo(Paths(cs), m), None)
    ensures forall x :: x in IdsOf(cs) <==> x in IdsOf(r)
    ensures forall k | 0 <= k < |cs| :: cs[k].id in IdsOf(cs) && cs[k].id in IdsOf(r)
  {
    var L1, L2 := IdsOf(cs), IdsOf(r);
    forall k | 0 <= k < |cs| ensures cs[k].id in L1 && cs[k].id in L2 {
      assert L1[k] == cs[k].id;
      InputPath(cs, k);
    }
    forall x | x in L2 ensures x in L1 {
      assert x in InputIds(cs);
    }
  }

  /** The input lists itself with siblings in input order. */
  lemma InputSiblingsOrdered(cs: seq<CommentModel>)
    requires WellFormed(cs)
    ensures NoDups(IdsOf(cs)) && SiblingsInInputOrder(cs, IdsOf(cs))
  {
    var L := IdsOf(cs);
    forall a, b, i, j | 0 <= a < b < |cs| && 0 <= i < |L| && 0 <= j < |L|
      ensures InputOrderAt(cs, L, a, b, i, j)
    {
      assert L[i] == cs[i].id && L[j] == cs[j].id;
    }
  }

  /**
   * An input that is already a gap-free nested listing of the thread comes
   * back unchanged from `sortToNestedOrder` without an ancestor: `r` is any
   * list meeting that method's postcondition.
   */
  lemma GapFreeNestedInputKept(cs: seq<CommentModel>, r: seq<CommentModel>)
    requires WellFormed(cs) && GapFree(cs) && NestedOrder(Paths(cs), IdsOf(cs))
    requires NoDups(IdsOf(r))
    requires forall m :: m in IdsOf(r) <==> m != 0 && Mentioned(Paths(cs), m) && InScope(PathTo(Paths(cs), m), None)
    requires forall i, j | 0 <= i < |r| && 0 <= j < |cs| && r[i].id == cs[j].id :: r[i] == cs[j]
    requires NestedOrder(Paths(cs), IdsOf(r)) && SiblingsInInputOrder(cs, IdsOf(r))
    ensures r == cs
  {
    var L1, L2 := IdsOf(cs), IdsOf(r);
    SameIds(cs, r);
    InputSiblingsOrdered(cs);
    forall i, j, k, l | 0 <= i < j < |L1| && 0 <= k < |L2| && 0 <= l < |L2| && L1[i] == L2[k] && L1[j] == L2[l]
      ensures k < l
    {
      BeforeTotal(cs, i, j);
      if Before(cs, j, i) {
        BeforeFirst(cs, L1, j, i, j, i);
      }
      BeforeFirst(cs, L2, i, j, k, l);
    }
    SameOrder(L1, L2);
    forall i | 0 <= i < |r| ensures r[i] == cs[i] {
      assert r[i].id == L2[i] == L1[i] == cs[i].id;
    }
  }
}
