/**
 * The flat comment list `sortToNestedOrder` is given: the tree its paths
 * describe, its ids, and the position of each comment.
 */
module CommentInput {
  import opened Comments
  import opened CommentPaths

  /** The paths of the input comments: the tree they describe. */
  ghost function Paths(cs: seq<CommentModel>): seq<seq<int>> {
    seq(|cs|, i requires 0 <= i < |cs| => cs[i].path)
  }

  /** The ids of the input comments. */
  ghost function InputIds(cs: seq<CommentModel>): set<int> {
    set i | 0 <= i < |cs| :: cs[i].id
  }

  /**
   * What `sortToNestedOrder` relies on in its input: no two comments share
   * an id, every path ends in the id of its comment, and the paths agree on
   * where each id sits (they describe one tree).
   */
  ghost predicate WellFormed(cs: seq<CommentModel>) {
    && (forall i, j | 0 <= i < j < |cs| :: cs[i].id != cs[j].id)
    && (forall i | 0 <= i < |cs| :: cs[i].path != [] && Last(cs[i].path) == cs[i].id)
    && Consistent(Paths(cs))
  }

  /** The position of each comment in the input, by id (the last one, should ids repeat). */
  ghost function Rank(cs: seq<CommentModel>): map<int, int> {
    if cs == [] then map[] else Rank(cs[..|cs| - 1])[cs[|cs| - 1].id := |cs| - 1]
  }

  /** The ids of a list are those of all but its last comment, and the last one's. */
  lemma InputIdsSnoc(cs: seq<CommentModel>)
    requires cs != []
    ensures InputIds(cs) == InputIds(cs[..|cs| - 1]) + {cs[|cs| - 1].id}
  {
    var init := cs[..|cs| - 1];
    forall k | k in InputIds(cs) ensures k in InputIds(init) + {cs[|cs| - 1].id} {
      var j :| 0 <= j < |cs| && cs[j].id == k;
      if j < |cs| - 1 { assert init[j] == cs[j]; }
    }
    forall k | k in InputIds(init) ensures k in InputIds(cs) {
      var j :| 0 <= j < |init| && init[j].id == k;
      assert cs[j] == init[j];
    }
  }

  /** With distinct ids each comment is ranked by its own position. */
  lemma {:induction false} RankOfDistinct(cs: seq<CommentModel>)
    requires forall i, j | 0 <= i < j < |cs| :: cs[i].id != cs[j].id
    ensures Rank(cs).Keys == InputIds(cs)
    ensures forall j | 0 <= j < |cs| :: cs[j].id in Rank(cs) && Rank(cs)[cs[j].id] == j
  {
    if cs != [] {
      var init := cs[..|cs| - 1];
      RankOfDistinct(init);
      InputIdsSnoc(cs);
      forall j | 0 <= j < |cs| ensures cs[j].id in Rank(cs) && Rank(cs)[cs[j].id] == j {
        if j < |cs| - 1 {
          assert init[j] == cs[j];
        }
      }
    }
  }

  /** An input comment's path is its path in the tree the paths describe. */
  lemma InputPath(cs: seq<CommentModel>, k: int)
    requires WellFormed(cs) && 0 <= k < |cs|
    ensures InTrie(Paths(cs), cs[k].path)
    ensures Mentioned(Paths(cs), cs[k].id) && PathTo(Paths(cs), cs[k].id) == cs[k].path
  {
    var ps := Paths(cs);
    assert ps[k] == cs[k].path;
    TrieInput(ps, k);
    TrieMentioned(ps, ps[k], |ps[k]| - 1);
    TrieUnique(ps, PathTo(ps, cs[k].id), ps[k]);
  }
}
