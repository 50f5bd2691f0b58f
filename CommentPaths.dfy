/**
 * Materialised comment paths. A path lists the ids from the top of the
 * thread down to the comment itself; together the paths of a comment list
 * describe one tree (a trie of ids) provided they never disagree about where
 * an id sits.
 */
module CommentPaths {

  predicate IsPrefix(a: seq<int>, b: seq<int>) {
    |a| <= |b| && b[..|a|] == a
  }

  predicate StrictPrefix(a: seq<int>, b: seq<int>) {
    |a| < |b| && b[..|a|] == a
  }

  /** Neither path lies on the other: the two nodes are in disjoint subtrees. */
  predicate Apart(a: seq<int>, b: seq<int>) {
    !IsPrefix(a, b) && !IsPrefix(b, a)
  }

  function Last(p: seq<int>): int
    requires p != []
  {
    p[|p| - 1]
  }

  /**
   * The paths agree wherever they mention the same id: the id has the same
   * chain of ancestors in both. This also rules out an id occurring twice in
   * one path, so following parents along paths cannot cycle.
   */
  ghost predicate Consistent(ps: seq<seq<int>>) {
    forall a, b, i, j {:trigger AgreeAt(ps, a, b, i, j)} |
      0 <= a < |ps| && 0 <= b < |ps| && 0 <= i < |ps[a]| && 0 <= j < |ps[b]| :: AgreeAt(ps, a, b, i, j)
  }

  /** Where path `a` at index `i` and path `b` at index `j` name the same id, they agree up to it. */
  ghost predicate AgreeAt(ps: seq<seq<int>>, a: int, b: int, i: int, j: int)
    requires 0 <= a < |ps| && 0 <= b < |ps| && 0 <= i < |ps[a]| && 0 <= j < |ps[b]|
  {
    ps[a][i] == ps[b][j] ==> ps[a][..i + 1] == ps[b][..j + 1]
  }

  /** `p` leads from the top of the thread to some node of the tree the paths describe. */
  ghost predicate InTrie(ps: seq<seq<int>>, p: seq<int>) {
    p != [] && exists a :: 0 <= a < |ps| && IsPrefix(p, ps[a])
  }

  /** `id` occurs somewhere in one of the paths. */
  ghost predicate Mentioned(ps: seq<seq<int>>, id: int) {
    exists a, i :: 0 <= a < |ps| && 0 <= i < |ps[a]| && ps[a][i] == id
  }

  /** The longest path: a bound on the depth of every node of the tree. */
  function MaxLen(ps: seq<seq<int>>): (m: nat)
    ensures forall a :: 0 <= a < |ps| ==> |ps[a]| <= m
  {
    if ps == [] then 0
    else
      var m := MaxLen(ps[1..]);
      assert forall a :: 1 <= a < |ps| ==> ps[a] == ps[1..][a - 1];
      if |ps[0]| > m then |ps[0]| else m
  }

  /** Two tree paths that meet in one id agree up to that id. */
  lemma TrieAgree(ps: seq<seq<int>>, p: seq<int>, q: seq<int>, i: nat, j: nat)
    requires Consistent(ps) && InTrie(ps, p) && InTrie(ps, q)
    requires i < |p| && j < |q| && p[i] == q[j]
    ensures i == j && p[..i + 1] == q[..j + 1]
  {
    var a :| 0 <= a < |ps| && IsPrefix(p, ps[a]);
    var b :| 0 <= b < |ps| && IsPrefix(q, ps[b]);
    assert ps[a][i] == p[i] && ps[b][j] == q[j];
    assert AgreeAt(ps, a, b, i, j);
    assert p[..i + 1] == ps[a][..i + 1];
    assert q[..j + 1] == ps[b][..j + 1];
  }

  /** A node of the tree has exactly one path: the one ending in its id. */
  lemma TrieUnique(ps: seq<seq<int>>, p: seq<int>, q: seq<int>)
    requires Consistent(ps) && InTrie(ps, p) && InTrie(ps, q) && Last(p) == Last(q)
    ensures p == q
  {
    TrieAgree(ps, p, q, |p| - 1, |q| - 1);
    assert p == p[..|p|];
    assert q == q[..|q|];
  }

  /** No id occurs twice in a tree path. */
  lemma TrieDistinct(ps: seq<seq<int>>, p: seq<int>, i: nat, j: nat)
    requires Consistent(ps) && InTrie(ps, p)
    requires i < |p| && j < |p| && i != j
    ensures p[i] != p[j]
  {
    if p[i] == p[j] {
      TrieAgree(ps, p, p, i, j);
    }
  }

  /** Every non-empty prefix of a tree path is a tree path. */
  lemma TriePrefix(ps: seq<seq<int>>, p: seq<int>, n: nat)
    requires InTrie(ps, p) && 0 < n <= |p|
    ensures InTrie(ps, p[..n])
  {
    var a :| 0 <= a < |ps| && IsPrefix(p, ps[a]);
    assert IsPrefix(p[..n], ps[a]);
  }

  /** Each input path is a tree path. */
  lemma TrieInput(ps: seq<seq<int>>, a: int)
    requires 0 <= a < |ps| && ps[a] != []
    ensures InTrie(ps, ps[a])
  {
    assert IsPrefix(ps[a], ps[a]);
  }

  /** The id at the end of a tree path is mentioned by the input. */
  lemma TrieMentioned(ps: seq<seq<int>>, p: seq<int>, i: nat)
    requires InTrie(ps, p) && i < |p|
    ensures Mentioned(ps, p[i])
  {
    var a :| 0 <= a < |ps| && IsPrefix(p, ps[a]);
    assert ps[a][i] == p[i];
  }

  /** The path of a mentioned id: the prefix, of a path that mentions it, that ends in it. */
  ghost function PathTo(ps: seq<seq<int>>, id: int): (p: seq<int>)
    requires Mentioned(ps, id)
    ensures InTrie(ps, p) && Last(p) == id
  {
    var a, i :| 0 <= a < |ps| && 0 <= i < |ps[a]| && ps[a][i] == id;
    assert IsPrefix(ps[a][..i + 1], ps[a]);
    ps[a][..i + 1]
  }

  /** Two different children of one node lie in disjoint subtrees. */
  lemma ApartSiblings(p: seq<int>, x: int, y: int)
    requires x != y
    ensures Apart(p + [x], p + [y])
  {
    assert (p + [x])[|p|] == x && (p + [y])[|p|] == y;
  }

  /** Two prefixes of one path lie on each other. */
  lemma PrefixesComparable(a: seq<int>, b: seq<int>, y: seq<int>)
    requires IsPrefix(a, y) && IsPrefix(b, y)
    ensures !Apart(a, b)
  {
    if |a| <= |b| { assert b[..|a|] == y[..|a|]; } else { assert a[..|b|] == y[..|b|]; }
  }

  /** Paths below two apart paths are apart. */
  lemma ApartBelow(a: seq<int>, b: seq<int>, x: seq<int>, y: seq<int>)
    requires Apart(a, b) && IsPrefix(a, x) && IsPrefix(b, y)
    ensures Apart(x, y)
  {
    if IsPrefix(x, y) {
      PrefixTrans(a, x, y);
      PrefixesComparable(a, b, y);
    } else if IsPrefix(y, x) {
      PrefixTrans(b, y, x);
      PrefixesComparable(a, b, x);
    }
  }

  lemma PrefixTrans(a: seq<int>, b: seq<int>, c: seq<int>)
    requires IsPrefix(a, b) && IsPrefix(b, c)
    ensures IsPrefix(a, c)
  {
    assert c[..|a|] == c[..|b|][..|a|];
  }

  /** `p` and `q` are the paths of siblings: they differ at most in their last id. */
  predicate SameParent(p: seq<int>, q: seq<int>) {
    |p| == |q| && p != [] && p[..|p| - 1] == q[..|q| - 1]
  }

  /** Sibling paths below two apart paths are those two paths themselves. */
  lemma SiblingsBelowApart(a: seq<int>, b: seq<int>, x: seq<int>, y: seq<int>)
    requires Apart(a, b) && IsPrefix(a, x) && IsPrefix(b, y) && SameParent(x, y)
    ensures x == a && y == b
  {
    var n := |x| - 1;
    if |a| <= n {
      assert y[..|a|] == y[..n][..|a|] == x[..n][..|a|] == x[..|a|];
      PrefixesComparable(a, b, y);
    } else if |b| <= n {
      assert x[..|b|] == x[..n][..|b|] == y[..n][..|b|] == y[..|b|];
      PrefixesComparable(a, b, x);
    } else {
      assert x == x[..|a|] && y == y[..|b|];
    }
  }
}
