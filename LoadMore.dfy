/**
 * The "load more" annotation pass over a list of comments: a comment shows
 * the button when the server reports replies for it and the comment right
 * after it in the list is not one of its replies (it is not deeper).
 */
module LoadMore {
  import opened Optional
  import opened Comments

  /** `(comment.comments ?: 0) > 0`. */
  predicate HasMoreComments(c: CommentModel) {
    c.comments.GetOr(0) > 0
  }

  /** `idx < lastIndex && this[idx + 1].depth <= comment.depth`. */
  predicate IsNextCommentNotChild(cs: seq<CommentModel>, i: int)
    requires 0 <= i < |cs|
  {
    i < |cs| - 1 && cs[i + 1].depth <= cs[i].depth
  }

  /**
   * `populateLoadMoreComments`: the same list, element by element; each
   * element is the input element with only `loadMoreButtonVisible` replaced,
   * and the flag is on exactly when the comment has replies on the server and
   * a next element exists that is not deeper.
   */
  function PopulateLoadMoreComments(cs: seq<CommentModel>): (r: seq<CommentModel>)
    ensures |r| == |cs|
    ensures forall i :: 0 <= i < |cs| ==>
              r[i].(loadMoreButtonVisible := cs[i].loadMoreButtonVisible) == cs[i]
    ensures forall i :: 0 <= i < |cs| ==>
              (r[i].loadMoreButtonVisible <==>
                 cs[i].comments.GetOr(0) > 0 && i + 1 < |cs| && cs[i + 1].depth <= cs[i].depth)
  {
    seq(|cs|, i requires 0 <= i < |cs| =>
      cs[i].(loadMoreButtonVisible := HasMoreComments(cs[i]) && IsNextCommentNotChild(cs, i)))
  }

  /** The last comment of the list never shows the button, whatever its replies. */
  lemma LastNeverFlagged(cs: seq<CommentModel>)
    requires |cs| > 0
    ensures !PopulateLoadMoreComments(cs)[|cs| - 1].loadMoreButtonVisible
  {
  }

  /** The pass reads no flag, so running it twice changes nothing more. */
  lemma PopulateIdempotent(cs: seq<CommentModel>)
    ensures PopulateLoadMoreComments(PopulateLoadMoreComments(cs)) == PopulateLoadMoreComments(cs)
  {
    var once := PopulateLoadMoreComments(cs);
    var twice := PopulateLoadMoreComments(once);
    forall i | 0 <= i < |cs| ensures twice[i] == once[i] {
      assert once[i].comments == cs[i].comments && once[i].depth == cs[i].depth;
      if i + 1 < |cs| {
        assert once[i + 1].depth == cs[i + 1].depth;
      }
    }
  }

  /**
   * Appending a further page of comments can change the flag of the last
   * comment of the earlier list only; every earlier comment keeps its result.
   */
  lemma AppendKeepsEarlierFlags(cs: seq<CommentModel>, more: seq<CommentModel>)
    requires |cs| > 0
    ensures PopulateLoadMoreComments(cs + more)[..|cs| - 1] == PopulateLoadMoreComments(cs)[..|cs| - 1]
  {
    var a := PopulateLoadMoreComments(cs + more);
    var b := PopulateLoadMoreComments(cs);
    forall i | 0 <= i < |cs| - 1 ensures a[i] == b[i] {
      assert (cs + more)[i] == cs[i] && (cs + more)[i + 1] == cs[i + 1];
    }
  }

  /** A comment with depth `d` and `n` known replies, otherwise irrelevant. */
  function Sample(id: int, d: int, n: int): CommentModel {
    CommentModel(id, [id], d, Some(n), "", false, false)
  }

  /**
   * Depths 0, 1, 2, 3, 3 where only the last comment has replies: since no
   * element follows it, no comment shows the button.
   */
  lemma NoFlagWithoutFollower()
    ensures forall i | 0 <= i < 5 ::
      !PopulateLoadMoreComments([Sample(1, 0, 0), Sample(2, 1, 0), Sample(3, 2, 0), Sample(4, 3, 0), Sample(5, 3, 2)])[i].loadMoreButtonVisible
  {
    var cs := [Sample(1, 0, 0), Sample(2, 1, 0), Sample(3, 2, 0), Sample(4, 3, 0), Sample(5, 3, 2)];
    LastNeverFlagged(cs);
  }

  /** A comment with replies followed by a sibling at the same depth shows the button. */
  lemma FlagBeforeSibling()
    ensures PopulateLoadMoreComments([Sample(1, 0, 3), Sample(2, 0, 0)])[0].loadMoreButtonVisible
    ensures !PopulateLoadMoreComments([Sample(1, 0, 3), Sample(2, 1, 0)])[0].loadMoreButtonVisible
  {
  }
}
