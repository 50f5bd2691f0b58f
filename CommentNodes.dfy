/**
 * The nodes of the comment tree and the memo that indexes them by id.
 *
 * The Kotlin nodes are objects pointing at each other (a mutable `parent`
 * back-reference and a mutable list of `children`). Here the memo is an
 * arena: each node stores the ids of its parent and children, and the memo
 * maps ids to nodes. Since no two nodes share an id, updating the node stored
 * under an id is the same as mutating the one object all references share.
 */
module CommentNodes {
  import opened Optional
  import opened Comments
  import opened CommentPaths

  /** A comment known only from the path of one of its replies. */
  datatype PlaceholderComment = PlaceholderComment(id: int, path: seq<int>)

  /** `CommentNode`: a fetched comment, or a placeholder for a missing one. */
  datatype CommentNode =
    | Actual(comment: CommentModel, children: seq<int>, parent: Option<int>)
    | Placeholder(missingComment: PlaceholderComment, children: seq<int>, parent: Option<int>)
  {
    function Id(): int {
      if Actual? then comment.id else missingComment.id
    }

    function Path(): seq<int> {
      if Actual? then comment.path else missingComment.path
    }

    /** What the algorithm never changes in a node: everything but its links. */
    function Bare(): CommentNode {
      this.(children := [], parent := None)
    }
  }

  predicate NoDups(s: seq<int>) {
    forall i, j :: 0 <= i < j < |s| ==> s[i] != s[j]
  }

  /** `order` lists each key of `nodes` exactly once. */
  ghost predicate KeyedBy(nodes: map<int, CommentNode>, order: seq<int>) {
    NoDups(order) && forall k :: k in nodes <==> k in order
  }

  /**
   * The memo, a Kotlin `mutableMapOf` (a linked hash map): `order` lists the
   * keys in the order they were first inserted, which is the order in which
   * `values` iterates.
   */
  class Memo {
    var nodes: map<int, CommentNode>
    var order: seq<int>

    /** `order` lists each key exactly once. */
    ghost predicate Keyed()
      reads this
    {
      KeyedBy(nodes, order)
    }

    constructor ()
      ensures nodes == map[] && order == []
      ensures Keyed()
    {
      nodes := map[];
      order := [];
    }

    /** `memo[id]`. */
    function Get(id: int): (r: Option<CommentNode>)
      reads this
      ensures r.Some? <==> id in nodes
      ensures r.Some? ==> r.value == nodes[id]
    {
      if id in nodes then Some(nodes[id]) else None
    }

    /** `memo[id] = node`: a new key goes to the end of the order, an existing one keeps its place. */
    method Put(id: int, node: CommentNode)
      modifies this
      ensures nodes == old(nodes)[id := node]
      ensures order == if id in old(nodes) then old(order) else old(order) + [id]
      ensures old(Keyed()) ==> Keyed()
    {
      if id !in nodes {
        order := order + [id];
      }
      nodes := nodes[id := node];
    }

    /** `node.parent = parent` on the node stored under `id`. */
    method SetParent(id: int, parentId: int)
      requires id in nodes
      modifies this
      ensures nodes == old(nodes)[id := old(nodes)[id].(parent := Some(parentId))]
      ensures order == old(order)
      ensures old(Keyed()) ==> Keyed()
    {
      nodes := nodes[id := nodes[id].(parent := Some(parentId))];
    }

    /** `parent.children += child` on the node stored under `id`. */
    method AddChild(id: int, childId: int)
      requires id in nodes
      modifies this
      ensures nodes == old(nodes)[id := old(nodes)[id].(children := old(nodes)[id].children + [childId])]
      ensures order == old(order)
      ensures old(Keyed()) ==> Keyed()
    {
      nodes := nodes[id := nodes[id].(children := nodes[id].children + [childId])];
    }
  }

  /** The `MutableList<CommentNode>` that linearisation appends to, holding node ids. */
  class NodeList {
    var items: seq<int>

    constructor ()
      ensures items == []
    {
      items := [];
    }

    method Add(id: int)
      modifies this
      ensures items == old(items) + [id]
    {
      items := items + [id];
    }
  }

  /**
   * The node under key `k` is well formed: it carries id `k`, its path is a
   * path of the tree ending in `k`, its children are distinct and point back
   * to it, and its parent, if any, is the node its path names second-to-last
   * and lists it as a child.
   */
  ghost predicate NodeOk(nodes: map<int, CommentNode>, ps: seq<seq<int>>, k: int)
    requires k in nodes
  {
    var n := nodes[k];
    && n.Id() == k
    && InTrie(ps, n.Path()) && Last(n.Path()) == k
    && NoDups(n.children)
    && (forall c | c in n.children :: c in nodes && nodes[c].parent == Some(k))
    && (n.parent.Some? ==>
          && |n.Path()| >= 2
          && n.parent.value == n.Path()[|n.Path()| - 2]
          && n.parent.value in nodes
          && k in nodes[n.parent.value].children)
  }

  ghost predicate NodesValid(nodes: map<int, CommentNode>, ps: seq<seq<int>>) {
    forall k {:trigger NodeOk(nodes, ps, k)} | k in nodes :: NodeOk(nodes, ps, k)
  }

  /**
   * Whether the linking pass must give node `k` a parent: its path names one
   * and it is not the ancestor the result is restricted to.
   */
  ghost predicate NeedsParent(nodes: map<int, CommentNode>, k: int, rootId: Option<int>)
    requires k in nodes
  {
    |nodes[k].Path()| > 1 && Some(k) != rootId
  }

  /** Node `k` is linked exactly when it needs to be. */
  ghost predicate Settled(nodes: map<int, CommentNode>, k: int, rootId: Option<int>)
    requires k in nodes
  {
    nodes[k].parent.Some? <==> NeedsParent(nodes, k, rootId)
  }

  /**
   * The state of the linking pass: nodes not processed yet (`waiting`) have
   * no parent, all others are settled.
   */
  ghost predicate LinkState(nodes: map<int, CommentNode>, waiting: set<int>, rootId: Option<int>) {
    forall k | k in nodes ::
      && (k in waiting ==> nodes[k].parent == None)
      && (k !in waiting ==> Settled(nodes, k, rootId))
  }

  /** The path of a node's parent is the node's path without its last id. */
  lemma ParentPath(nodes: map<int, CommentNode>, ps: seq<seq<int>>, k: int)
    requires Consistent(ps) && NodesValid(nodes, ps)
    requires k in nodes && nodes[k].parent.Some?
    ensures NodeOk(nodes, ps, k) && nodes[nodes[k].parent.value].Path() == nodes[k].Path()[..|nodes[k].Path()| - 1]
  {
    var p := nodes[k].Path();
    var q := nodes[k].parent.value;
    assert NodeOk(nodes, ps, k) && NodeOk(nodes, ps, q);
    TriePrefix(ps, p, |p| - 1);
    TrieUnique(ps, nodes[q].Path(), p[..|p| - 1]);
  }

  /** The path of a child is its parent's path extended by the child's id. */
  lemma ChildPath(nodes: map<int, CommentNode>, ps: seq<seq<int>>, k: int, c: int)
    requires Consistent(ps) && NodesValid(nodes, ps)
    requires k in nodes && c in nodes[k].children
    ensures c in nodes && nodes[c].Path() == nodes[k].Path() + [c]
  {
    assert NodeOk(nodes, ps, k) && NodeOk(nodes, ps, c);
    ParentPath(nodes, ps, c);
    var p := nodes[c].Path();
    assert p == p[..|p| - 1] + [c];
  }

  /**
   * `currentNode.parent = parent; parent.children += currentNode` keeps the
   * memo well formed when `p` is the parent the path of `c` names.
   */
  lemma LinkKeepsValid(nodes: map<int, CommentNode>, ps: seq<seq<int>>, c: int, p: int)
    requires NodesValid(nodes, ps)
    requires c in nodes && p in nodes && c != p && nodes[c].parent == None
    requires |nodes[c].Path()| >= 2 && p == nodes[c].Path()[|nodes[c].Path()| - 2]
    ensures NodesValid(nodes[c := nodes[c].(parent := Some(p))][p := nodes[p].(children := nodes[p].children + [c])], ps)
  {
    var n2 := nodes[c := nodes[c].(parent := Some(p))][p := nodes[p].(children := nodes[p].children + [c])];
    forall k | k in n2 ensures NodeOk(n2, ps, k) {
      if k == p {
        LinkParentOk(nodes, ps, c, p);
      } else {
        LinkOtherOk(nodes, ps, c, p, k);
      }
    }
  }

  /** After the link the parent is well formed: its new child is a new one and points back to it. */
  lemma LinkParentOk(nodes: map<int, CommentNode>, ps: seq<seq<int>>, c: int, p: int)
    requires NodesValid(nodes, ps)
    requires c in nodes && p in nodes && c != p && nodes[c].parent == None
    ensures NodeOk(nodes[c := nodes[c].(parent := Some(p))][p := nodes[p].(children := nodes[p].children + [c])], ps, p)
  {
    var n2 := nodes[c := nodes[c].(parent := Some(p))][p := nodes[p].(children := nodes[p].children + [c])];
    assert NodeOk(nodes, ps, p);
    assert c !in nodes[p].children;
    var ch := n2[p].children;
    assert ch == nodes[p].children + [c];
    forall i, j | 0 <= i < j < |ch| ensures ch[i] != ch[j] {
      if j == |ch| - 1 {
        assert ch[i] in nodes[p].children;
      }
    }
  }

  /** After the link every node but the parent is as well formed as before. */
  lemma LinkOtherOk(nodes: map<int, CommentNode>, ps: seq<seq<int>>, c: int, p: int, k: int)
    requires NodesValid(nodes, ps)
    requires c in nodes && p in nodes && c != p && nodes[c].parent == None
    requires |nodes[c].Path()| >= 2 && p == nodes[c].Path()[|nodes[c].Path()| - 2]
    requires k in nodes && k != p
    ensures NodeOk(nodes[c := nodes[c].(parent := Some(p))][p := nodes[p].(children := nodes[p].children + [c])], ps, k)
  {
    assert NodeOk(nodes, ps, k);
    assert NodeOk(nodes, ps, p);
  }

  /**
   * Creating a placeholder for the missing parent `q` of `c`, with `c` as its
   * only child and the path of `c` minus its last id, keeps the memo well formed.
   */
  lemma PlaceholderKeepsValid(nodes: map<int, CommentNode>, ps: seq<seq<int>>, c: int, q: int)
    requires NodesValid(nodes, ps)
    requires c in nodes && q !in nodes && nodes[c].parent == None
    requires |nodes[c].Path()| >= 2 && q == nodes[c].Path()[|nodes[c].Path()| - 2]
    ensures var path := nodes[c].Path();
            NodesValid(
              nodes[c := nodes[c].(parent := Some(q))]
                   [q := Placeholder(PlaceholderComment(q, path[..|path| - 1]), [c], None)], ps)
  {
    var path := nodes[c].Path();
    var n2 := nodes[c := nodes[c].(parent := Some(q))]
                   [q := Placeholder(PlaceholderComment(q, path[..|path| - 1]), [c], None)];
    forall k | k in n2 ensures NodeOk(n2, ps, k) {
      if k == q {
        PlaceholderOk(nodes, ps, c, q);
      } else {
        PlaceholderOtherOk(nodes, ps, c, q, k);
      }
    }
  }

  /** The new placeholder is well formed: its path is the prefix of a tree path and its only child points back. */
  lemma PlaceholderOk(nodes: map<int, CommentNode>, ps: seq<seq<int>>, c: int, q: int)
    requires NodesValid(nodes, ps)
    requires c in nodes && q !in nodes && nodes[c].parent == None
    requires |nodes[c].Path()| >= 2 && q == nodes[c].Path()[|nodes[c].Path()| - 2]
    ensures var path := nodes[c].Path();
            NodeOk(
              nodes[c := nodes[c].(parent := Some(q))]
                   [q := Placeholder(PlaceholderComment(q, path[..|path| - 1]), [c], None)], ps, q)
  {
    var path := nodes[c].Path();
    assert NodeOk(nodes, ps, c);
    TriePrefix(ps, path, |path| - 1);
  }

  /** Creating the placeholder leaves every other node as well formed as before. */
  lemma PlaceholderOtherOk(nodes: map<int, CommentNode>, ps: seq<seq<int>>, c: int, q: int, k: int)
    requires NodesValid(nodes, ps)
    requires c in nodes && q !in nodes && nodes[c].parent == None
    requires |nodes[c].Path()| >= 2 && q == nodes[c].Path()[|nodes[c].Path()| - 2]
    requires k in nodes
    ensures var path := nodes[c].Path();
            NodeOk(
              nodes[c := nodes[c].(parent := Some(q))]
                   [q := Placeholder(PlaceholderComment(q, path[..|path| - 1]), [c], None)], ps, k)
  {
    assert NodeOk(nodes, ps, k);
  }
}
