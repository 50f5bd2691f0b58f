/**
 * The comment record handed to the comment-tree code: the fields of
 * `CommentModel` that the code reads or writes. The path is kept already
 * parsed, as the sequence of ids from the post-level root down to the
 * comment itself (`"0.12.47"` is `[0, 12, 47]`).
 */
module Comments {
  import opened Optional

  datatype CommentModel = CommentModel(
    id: int,
    path: seq<int>,
    depth: int,
    comments: Option<int>,   // number of replies reported by the server, when known
    text: string,
    removed: bool,
    loadMoreButtonVisible: bool)

  /**
   * `CommentModel(id = id, text = "", removed = true)`: the record shown in
   * place of a comment that is missing from the fetched list. Every field the
   * call leaves out takes its declared default (taken here to be an empty
   * path, depth 0, no reply count and the flag off).
   */
  function Tombstone(id: int): (c: CommentModel)
    ensures c.id == id && c.text == "" && c.removed
  {
    CommentModel(id, [], 0, None, "", true, false)
  }
}
