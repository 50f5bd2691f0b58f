# Comment threads and formatting edits of RaccoonForLemmy, in Dafny

This project is a Dafny model of two pieces of the RaccoonForLemmy Lemmy client.

**The comment-tree code of the post detail screen** (`CommentUtils.kt`). Lemmy returns the comments of a post as a flat, paginated list. Each comment carries a materialised path of ancestor ids, such as `0.12.47.103`. `sortToNestedOrder` turns that list back into the reply tree and lists the tree in nested (pre-)order. It inserts a removed, empty comment wherever an ancestor is missing, and can restrict the listing to the replies below one comment. `populateLoadMoreComments` sets the "load more" flag of each comment. The model is split into these modules:

- `Comments`: the comment record.
- `CommentPaths`: paths and the tree they describe.
- `CommentInput`: the input list, its well-formedness and the position of each comment.
- `CommentSteps`: where each reply goes among its siblings, told from the input alone.
- `CommentNodes`: the memo, the node list and the node invariant.
- `CommentTree`: the linking pass, `connectNodesAndGeneratePlaceholders`.
- `CommentForest`: `joinForestUnderSingleRoot`.
- `CommentPreorder`: the pre-order of the linked memo.
- `CommentSort`: `linearize` and `sortToNestedOrder` end to end.
- `SortedInput`: an input already in nested order is returned unchanged.
- `SiblingOrder`: two small threads that show where a placeholder goes among its siblings.
- `LoadMore`: `populateLoadMoreComments`.

The memo is a Kotlin linked hash map of nodes that point at each other. Here it is a class `Memo`, which holds a map from id to node and the key insertion order. Parent and child links are stored as ids. The methods that change the memo (`Put`, `SetParent`, `AddChild`) assign these fields, as the Kotlin code assigns `parent`, appends to `children` and stores into the map. `linearize` appends to a `NodeList` object, the shared `MutableList` of the source.

Paths are already parsed into `seq<int>`. The path starts with the post-level id 0 and ends with the comment's own id. `sortToNestedOrder` relies on its input being well formed (`CommentInput.WellFormed`):

- ids are distinct;
- every path is non-empty and ends in its comment's id;
- the paths never disagree about the ancestors of an id.

Without these conditions the Kotlin code goes wrong in two ways. With a duplicate id, the one stored node is linked once per comment. It can become its own child, and then `linearize` never returns: take id 5 with the paths `0.5` and `5.5`. With paths that disagree, comments are lost or placed under the wrong parent. For example, id 2 with path `1.2` and id 1 with path `2.1` link to each other, and the result is empty.

Among siblings, the result keeps the order in which the Kotlin code builds its lists (`CommentSteps`). The linking pass handles the comments in input order. A reply is appended to its parent's children during the step that links it. For an input comment that is its own step. For a placeholder it is the step whose walk created it. So below the top, siblings come in order of that step. The replies the result starts from are gathered by filtering the memo instead. That filter applies only at the top: without an ancestor, and with Lemmy's paths, which all start at 0, it gathers node 0 alone, so the visible first-level replies are the children of 0 and follow step order (`SiblingOrder.PlaceholderBeforeLaterComment`). The memo lists the input comments first, in input order, and then the placeholders in the order they were created. So at the top, every present comment comes before every placeholder (`SiblingOrder.TopLevelPlaceholderLast`). Below the top, a placeholder can come before a comment that the input lists later (`SiblingOrder.PlaceholderBeforeLaterComment`). The listing is a pre-order, so the whole subtree of a sibling comes before the subtree of the next one (`CommentSteps.SubtreesInThreadOrder`). This also places the subtree of a sibling that is itself not listed, such as node 0. For example, a parentless comment 5 listed first in the input comes before the reply `0.3`, because 0 is stored in the memo after both comments (`SiblingOrder.ParentlessBeforePostReplies`).

**The Markdown buttons of the text formatting bar** (`TextFormattingBar.kt`). Each button's click handler takes the text field value (text plus selection) and returns a new value:

- **bold, italic, strikethrough, link, code:** wrap the selection in markers, inserting `text here` when the selection is empty;
- **quote, bulleted list, numbered list:** replace the selection with a line prefix.

Each handler is a pure function in module `TextFormatting`.

## Model

In the sections after the table, `CommentUtils.kt` stands for `unit/postdetail/src/commonMain/kotlin/com/github/diegoberaldin/raccoonforlemmy/unit/postdetail/utils/CommentUtils.kt`, and `TextFormattingBar.kt` for `core-commonui/lemmyui/src/commonMain/kotlin/com/github/diegoberaldin/raccoonforlemmy/core/commonui/lemmyui/TextFormattingBar.kt`.

| member | source | states |
|---|---|---|
| LoadMore.PopulateLoadMoreComments | unit/postdetail/src/commonMain/kotlin/com/github/diegoberaldin/raccoonforlemmy/unit/postdetail/utils/CommentUtils.kt:5-10 | same length; element i equals input i in every field but the flag; the flag is set iff the reply count (0 when unknown) is positive and a next element exists whose depth is at most the current depth |
| LoadMore.LastNeverFlagged | unit/postdetail/src/commonMain/kotlin/com/github/diegoberaldin/raccoonforlemmy/unit/postdetail/utils/CommentUtils.kt:8 | the last comment of a non-empty list never gets the flag |
| LoadMore.PopulateIdempotent | unit/postdetail/src/commonMain/kotlin/com/github/diegoberaldin/raccoonforlemmy/unit/postdetail/utils/CommentUtils.kt:5-10 | running the pass twice gives what it gives once |
| LoadMore.AppendKeepsEarlierFlags | unit/postdetail/src/commonMain/kotlin/com/github/diegoberaldin/raccoonforlemmy/unit/postdetail/utils/CommentUtils.kt:6-9 | appending a page changes the flags only of the old last comment and of the new ones |
| LoadMore.NoFlagWithoutFollower | unit/postdetail/src/commonMain/kotlin/com/github/diegoberaldin/raccoonforlemmy/unit/postdetail/utils/CommentUtils.kt:6-9 | depths 0,1,2,3,3 with replies only on the last comment: no comment gets the flag (there is no depth-ceiling test) |
| LoadMore.FlagBeforeSibling | unit/postdetail/src/commonMain/kotlin/com/github/diegoberaldin/raccoonforlemmy/unit/postdetail/utils/CommentUtils.kt:6-9 | a comment with replies followed by a sibling is flagged; followed by a deeper comment it is not |
| Comments.Tombstone | unit/postdetail/src/commonMain/kotlin/com/github/diegoberaldin/raccoonforlemmy/unit/postdetail/utils/CommentUtils.kt:54-58 | the stand-in record has the placeholder's id, empty text and is removed |
| CommentNodes.Memo.constructor | unit/postdetail/src/commonMain/kotlin/com/github/diegoberaldin/raccoonforlemmy/unit/postdetail/utils/CommentUtils.kt:20 | the memo starts empty |
| CommentNodes.Memo.Get | unit/postdetail/src/commonMain/kotlin/com/github/diegoberaldin/raccoonforlemmy/unit/postdetail/utils/CommentUtils.kt:115 | present exactly when the id is a key, and then it is the stored node |
| CommentNodes.Memo.Put | unit/postdetail/src/commonMain/kotlin/com/github/diegoberaldin/raccoonforlemmy/unit/postdetail/utils/CommentUtils.kt:128 | the map gets the node under the id; a new key goes to the end of the iteration order, an existing key keeps its place |
| CommentNodes.Memo.SetParent | unit/postdetail/src/commonMain/kotlin/com/github/diegoberaldin/raccoonforlemmy/unit/postdetail/utils/CommentUtils.kt:118 | only the node's parent changes; the order is kept |
| CommentNodes.Memo.AddChild | unit/postdetail/src/commonMain/kotlin/com/github/diegoberaldin/raccoonforlemmy/unit/postdetail/utils/CommentUtils.kt:119 | only the node's child list changes, by one id at the end; the order is kept |
| CommentNodes.NodeList.constructor | unit/postdetail/src/commonMain/kotlin/com/github/diegoberaldin/raccoonforlemmy/unit/postdetail/utils/CommentUtils.kt:46 | the list starts empty |
| CommentNodes.NodeList.Add | unit/postdetail/src/commonMain/kotlin/com/github/diegoberaldin/raccoonforlemmy/unit/postdetail/utils/CommentUtils.kt:159 | the id is appended and nothing else changes |
| CommentNodes.ParentPath | unit/postdetail/src/commonMain/kotlin/com/github/diegoberaldin/raccoonforlemmy/unit/postdetail/utils/CommentUtils.kt:108-128 | in a valid memo, a node's parent has the node's path minus its last id |
| CommentNodes.ChildPath | unit/postdetail/src/commonMain/kotlin/com/github/diegoberaldin/raccoonforlemmy/unit/postdetail/utils/CommentUtils.kt:119-126 | in a valid memo, a child's path is its parent's path plus the child's id |
| CommentNodes.LinkKeepsValid | unit/postdetail/src/commonMain/kotlin/com/github/diegoberaldin/raccoonforlemmy/unit/postdetail/utils/CommentUtils.kt:115-119 | linking an unlinked node to the present parent its path names keeps every node well formed |
| CommentNodes.PlaceholderKeepsValid | unit/postdetail/src/commonMain/kotlin/com/github/diegoberaldin/raccoonforlemmy/unit/postdetail/utils/CommentUtils.kt:120-128 | storing a placeholder for the missing parent, with the path minus its last id and the node as only child, keeps every node well formed |
| CommentTree.ConnectNodesAndGeneratePlaceholders | unit/postdetail/src/commonMain/kotlin/com/github/diegoberaldin/raccoonforlemmy/unit/postdetail/utils/CommentUtils.kt:107-139 | the walk stops at the first ancestor already in the memo, at the top of the path or at the restricting ancestor; every id it passes was missing and now holds a placeholder with that prefix of the path, inserted once and bottom-up; of the old nodes only the current node (its parent) and the one linked to (one more child) change; the memo stays well formed |
| CommentTree.ConnectedStop | unit/postdetail/src/commonMain/kotlin/com/github/diegoberaldin/raccoonforlemmy/unit/postdetail/utils/CommentUtils.kt:114 | a node at the top of its path, or the restricting ancestor itself, is left unlinked and nothing changes |
| CommentTree.ConnectedLink | unit/postdetail/src/commonMain/kotlin/com/github/diegoberaldin/raccoonforlemmy/unit/postdetail/utils/CommentUtils.kt:115-119 | linking to a present parent is a walk that stops at once, having added no key |
| CommentTree.ConnectedStep | unit/postdetail/src/commonMain/kotlin/com/github/diegoberaldin/raccoonforlemmy/unit/postdetail/utils/CommentUtils.kt:120-137 | one placeholder plus the recursive call one level up is the walk for the longer path |
| CommentTree.PlaceholderReady | unit/postdetail/src/commonMain/kotlin/com/github/diegoberaldin/raccoonforlemmy/unit/postdetail/utils/CommentUtils.kt:122-128 | after the placeholder step the memo order lists the new key once at the end, the memo stays well formed and the placeholder is the next node to link |
| CommentTree.LinkKeepsState | unit/postdetail/src/commonMain/kotlin/com/github/diegoberaldin/raccoonforlemmy/unit/postdetail/utils/CommentUtils.kt:116-119 | after linking, the current node is settled and the nodes still waiting are unlinked |
| CommentTree.ConnectedKeepsComments | unit/postdetail/src/commonMain/kotlin/com/github/diegoberaldin/raccoonforlemmy/unit/postdetail/utils/CommentUtils.kt:115-137 | one linking call changes no node but its links and adds only placeholders |
| CommentTree.ConnectedKeepsRanks | unit/postdetail/src/commonMain/kotlin/com/github/diegoberaldin/raccoonforlemmy/unit/postdetail/utils/CommentUtils.kt:118-128 | one call appends to an old child list only the current node or a node it adds, and appends its new keys to the end of the memo order, so child lists stay ordered by step and the memo order by insertion |
| CommentForest.Roots | unit/postdetail/src/commonMain/kotlin/com/github/diegoberaldin/raccoonforlemmy/unit/postdetail/utils/CommentUtils.kt:151-153 | the filter keeps exactly the memo nodes whose parent is the given ancestor (no parent, without one), in memo order and without repeats |
| CommentForest.RootsRanked | unit/postdetail/src/commonMain/kotlin/com/github/diegoberaldin/raccoonforlemmy/unit/postdetail/utils/CommentUtils.kt:151-153 | the filter keeps the memo order of the ids it keeps |
| CommentForest.JoinForestUnderSingleRoot | unit/postdetail/src/commonMain/kotlin/com/github/diegoberaldin/raccoonforlemmy/unit/postdetail/utils/CommentUtils.kt:141-155 | the root is a parentless placeholder with id 0 and empty path, whose children are the memo nodes whose parent is the ancestor, each once |
| CommentForest.ValidTree | unit/postdetail/src/commonMain/kotlin/com/github/diegoberaldin/raccoonforlemmy/unit/postdetail/utils/CommentUtils.kt:114-137 | the links of a valid memo form a tree: every child lies strictly deeper than its parent and siblings lie in disjoint subtrees |
| CommentForest.OneParent | unit/postdetail/src/commonMain/kotlin/com/github/diegoberaldin/raccoonforlemmy/unit/postdetail/utils/CommentUtils.kt:118-127 | a node is the child of at most one node, the one its parent field names |
| CommentForest.RootsApart | unit/postdetail/src/commonMain/kotlin/com/github/diegoberaldin/raccoonforlemmy/unit/postdetail/utils/CommentUtils.kt:151-153 | two gathered roots lie in disjoint subtrees |
| CommentForest.EmittedInScope | unit/postdetail/src/commonMain/kotlin/com/github/diegoberaldin/raccoonforlemmy/unit/postdetail/utils/CommentUtils.kt:151-160 | every id the joined root lists is a memo key other than 0 inside the requested part of the thread |
| CommentForest.InScopeEmitted | unit/postdetail/src/commonMain/kotlin/com/github/diegoberaldin/raccoonforlemmy/unit/postdetail/utils/CommentUtils.kt:151-163 | every memo key other than 0 inside the requested part of the thread is listed |
| CommentForest.KeysInScope | unit/postdetail/src/commonMain/kotlin/com/github/diegoberaldin/raccoonforlemmy/unit/postdetail/utils/CommentUtils.kt:114-137 | after linking, the memo keys in scope are exactly the ids that the paths name in scope |
| CommentPreorder.PreorderOfBelow | unit/postdetail/src/commonMain/kotlin/com/github/diegoberaldin/raccoonforlemmy/unit/postdetail/utils/CommentUtils.kt:157-164 | linearising a node lists only non-zero memo keys: the node itself or nodes strictly below it |
| CommentPreorder.PreorderOfNoDups | unit/postdetail/src/commonMain/kotlin/com/github/diegoberaldin/raccoonforlemmy/unit/postdetail/utils/CommentUtils.kt:157-164 | linearising a node lists no id twice |
| CommentPreorder.PreorderOfOrdered | unit/postdetail/src/commonMain/kotlin/com/github/diegoberaldin/raccoonforlemmy/unit/postdetail/utils/CommentUtils.kt:157-164 | the linearisation is a pre-order: ancestors first, and each subtree is a contiguous block |
| CommentPreorder.PreorderOfRanked | unit/postdetail/src/commonMain/kotlin/com/github/diegoberaldin/raccoonforlemmy/unit/postdetail/utils/CommentUtils.kt:157-164 | when every child list from a given depth on is ranked and holds siblings one level down, the subtrees of siblings at that depth or deeper are listed in rank order: an id below the lower-ranked sibling comes first; so siblings themselves are too |
| CommentPreorder.ConsSubtrees | unit/postdetail/src/commonMain/kotlin/com/github/diegoberaldin/raccoonforlemmy/unit/postdetail/utils/CommentUtils.kt:158-160 | a node put in front of a rank-ordered list of ids that all lie at or below it keeps the subtrees in rank order |
| CommentPreorder.ConcatSubtrees | unit/postdetail/src/commonMain/kotlin/com/github/diegoberaldin/raccoonforlemmy/unit/postdetail/utils/CommentUtils.kt:161-162 | two lists of ids, each with its subtrees in rank order, joined where no sibling above an id of the second list outranks a sibling of it above an id of the first, have their subtrees in rank order |
| CommentPreorder.SubtreesSiblings | unit/postdetail/src/commonMain/kotlin/com/github/diegoberaldin/raccoonforlemmy/unit/postdetail/utils/CommentUtils.kt:157-164 | subtrees listed in rank order list siblings in rank order |
| CommentPreorder.ImmediateAlike | unit/postdetail/src/commonMain/kotlin/com/github/diegoberaldin/raccoonforlemmy/unit/postdetail/utils/CommentUtils.kt:119 | the children of one node are siblings when every child lies one level below its parent |
| CommentPreorder.SiblingTops | unit/postdetail/src/commonMain/kotlin/com/github/diegoberaldin/raccoonforlemmy/unit/postdetail/utils/CommentUtils.kt:161-162 | for ids below two apart siblings, siblings on the way up are one path or those two siblings |
| CommentSort.Linearize | unit/postdetail/src/commonMain/kotlin/com/github/diegoberaldin/raccoonforlemmy/unit/postdetail/utils/CommentUtils.kt:157-164 | the list grows by the pre-order of the node, which skips id 0 |
| CommentSort.LinearizeChildren | unit/postdetail/src/commonMain/kotlin/com/github/diegoberaldin/raccoonforlemmy/unit/postdetail/utils/CommentUtils.kt:161-163 | the list grows by the pre-orders of the children, one after another |
| CommentSort.Materialize | unit/postdetail/src/commonMain/kotlin/com/github/diegoberaldin/raccoonforlemmy/unit/postdetail/utils/CommentUtils.kt:52-59 | an actual node gives back its comment unchanged; a placeholder gives a removed comment with the same id and empty text |
| CommentSort.Materialized | unit/postdetail/src/commonMain/kotlin/com/github/diegoberaldin/raccoonforlemmy/unit/postdetail/utils/CommentUtils.kt:51-60 | the mapped list has one record per listed node, in the same order |
| CommentSort.BuildMemo | unit/postdetail/src/commonMain/kotlin/com/github/diegoberaldin/raccoonforlemmy/unit/postdetail/utils/CommentUtils.kt:20-24 | the memo holds one unlinked actual node per comment, keyed by id and in first-insertion order |
| CommentSort.MemoOfKeys | unit/postdetail/src/commonMain/kotlin/com/github/diegoberaldin/raccoonforlemmy/unit/postdetail/utils/CommentUtils.kt:21-24 | the keys of the first memo are exactly the input ids |
| CommentSort.MemoOfDistinct | unit/postdetail/src/commonMain/kotlin/com/github/diegoberaldin/raccoonforlemmy/unit/postdetail/utils/CommentUtils.kt:21-24 | with distinct ids, each comment is stored under its own id as an unlinked actual node |
| CommentSort.FirstIdsRanked | unit/postdetail/src/commonMain/kotlin/com/github/diegoberaldin/raccoonforlemmy/unit/postdetail/utils/CommentUtils.kt:21-24 | with distinct ids, the memo iterates the ids in input order |
| CommentSort.InitiallyValid | unit/postdetail/src/commonMain/kotlin/com/github/diegoberaldin/raccoonforlemmy/unit/postdetail/utils/CommentUtils.kt:20-24 | the first memo is well formed, holds the input comments and has every node waiting to be linked |
| CommentSort.ConnectAll | unit/postdetail/src/commonMain/kotlin/com/github/diegoberaldin/raccoonforlemmy/unit/postdetail/utils/CommentUtils.kt:27-36 | after the linking loop every node is linked exactly when its path names a parent and it is not the ancestor; the comments are kept; the memo keys are exactly the input ids and the ids some walk reaches, all others placeholders; every child list is in order of the step that attached it; the memo order lists the comments in input order, then the placeholders in creation order |
| CommentSort.SortToNestedOrder | unit/postdetail/src/commonMain/kotlin/com/github/diegoberaldin/raccoonforlemmy/unit/postdetail/utils/CommentUtils.kt:18-61 | each id at most once; exactly the non-zero ids the paths name inside the requested part of the thread; input comments unchanged; every other record a tombstone; nested order; siblings in order of their keys (below the top the step that attached them, at the top the memo order), so input comments among siblings in input order; and every listed id below a sibling with a lower key comes before every listed id below a sibling with a higher key, the unlisted node 0 and the ancestor's own siblings included |
| CommentSort.SortedResult | unit/postdetail/src/commonMain/kotlin/com/github/diegoberaldin/raccoonforlemmy/unit/postdetail/utils/CommentUtils.kt:46-60 | mapping the listed nodes to records keeps every property of the list of ids |
| CommentSort.Emitted | unit/postdetail/src/commonMain/kotlin/com/github/diegoberaldin/raccoonforlemmy/unit/postdetail/utils/CommentUtils.kt:39-50 | linearising the joined root lists each in-scope id other than 0 exactly once, in nested order |
| CommentSort.EmittedRanked | unit/postdetail/src/commonMain/kotlin/com/github/diegoberaldin/raccoonforlemmy/unit/postdetail/utils/CommentUtils.kt:151-162 | the linearisation lists subtrees, and so siblings, in order of their keys: the gathered replies in memo order, every other child list in step order |
| CommentSort.SubtreeOrderTransfer | unit/postdetail/src/commonMain/kotlin/com/github/diegoberaldin/raccoonforlemmy/unit/postdetail/utils/CommentUtils.kt:151-162 | subtrees listed by key are listed in thread order, for every pair of siblings the paths mention, in scope or not |
| CommentSort.OutOfScopeSame | unit/postdetail/src/commonMain/kotlin/com/github/diegoberaldin/raccoonforlemmy/unit/postdetail/utils/CommentUtils.kt:114 | two siblings above two comments below the ancestor, one of them not below the ancestor itself, are one id, because both paths pass the ancestor at the same place |
| CommentSort.MemoImmediate | unit/postdetail/src/commonMain/kotlin/com/github/diegoberaldin/raccoonforlemmy/unit/postdetail/utils/CommentUtils.kt:118-126 | in the linked memo every child lies one level below its parent |
| CommentSort.RootsAlike | unit/postdetail/src/commonMain/kotlin/com/github/diegoberaldin/raccoonforlemmy/unit/postdetail/utils/CommentUtils.kt:151-153 | the gathered replies are siblings of each other |
| CommentSort.RootTop | unit/postdetail/src/commonMain/kotlin/com/github/diegoberaldin/raccoonforlemmy/unit/postdetail/utils/CommentUtils.kt:151-153 | a gathered reply has a top-level path of the thread |
| CommentSteps.TopLevelSiblings | unit/postdetail/src/commonMain/kotlin/com/github/diegoberaldin/raccoonforlemmy/unit/postdetail/utils/CommentUtils.kt:151-153 | two top-level paths of the thread have the same parent |
| CommentSort.ThreadOrderTransfer | unit/postdetail/src/commonMain/kotlin/com/github/diegoberaldin/raccoonforlemmy/unit/postdetail/utils/CommentUtils.kt:27-36 | siblings listed by key, all of them memo keys, are listed in thread order, because two different siblings never share a key |
| CommentSort.InitiallyRanked | unit/postdetail/src/commonMain/kotlin/com/github/diegoberaldin/raccoonforlemmy/unit/postdetail/utils/CommentUtils.kt:20-24 | the first memo holds exactly the input ids, no node has children, and its order is ranked by insertion key |
| CommentSort.RankStepReady | unit/postdetail/src/commonMain/kotlin/com/github/diegoberaldin/raccoonforlemmy/unit/postdetail/utils/CommentUtils.kt:27-36 | when step i starts, comment i has step i, every node already attached has an earlier step, and every memo key comes before what step i inserts |
| CommentSort.CreatedStep | unit/postdetail/src/commonMain/kotlin/com/github/diegoberaldin/raccoonforlemmy/unit/postdetail/utils/CommentUtils.kt:114-137 | step i adds exactly the ids its walk is the first to reach, each with step i and inserted after everything before it |
| CommentSort.NewKeyCreated | unit/postdetail/src/commonMain/kotlin/com/github/diegoberaldin/raccoonforlemmy/unit/postdetail/utils/CommentUtils.kt:120-128 | a key step i adds is a missing id its walk reaches and no earlier walk reached |
| CommentSort.ReachedIsKey | unit/postdetail/src/commonMain/kotlin/com/github/diegoberaldin/raccoonforlemmy/unit/postdetail/utils/CommentUtils.kt:114-137 | every id step i's walk reaches is a memo key after step i, either added by it or already there, because the walk stops only at a stored ancestor |
| CommentSort.ReachedVia | unit/postdetail/src/commonMain/kotlin/com/github/diegoberaldin/raccoonforlemmy/unit/postdetail/utils/CommentUtils.kt:114-126 | an id the walk of step i reaches below an id created earlier was created no later than that id |
| CommentSort.InputOrderOfThreadOrder | unit/postdetail/src/commonMain/kotlin/com/github/diegoberaldin/raccoonforlemmy/unit/postdetail/utils/CommentUtils.kt:21-36 | in a thread-ordered listing, input comments that are siblings come in input order |
| CommentSort.RootKeys | unit/postdetail/src/commonMain/kotlin/com/github/diegoberaldin/raccoonforlemmy/unit/postdetail/utils/CommentUtils.kt:151-153 | the gathered replies lie at the top depth and are ranked by their keys |
| CommentSort.DeepKeys | unit/postdetail/src/commonMain/kotlin/com/github/diegoberaldin/raccoonforlemmy/unit/postdetail/utils/CommentUtils.kt:118-126 | below the top depth every child list is ranked by the keys of its children |
| CommentSort.NodeKeys | unit/postdetail/src/commonMain/kotlin/com/github/diegoberaldin/raccoonforlemmy/unit/postdetail/utils/CommentUtils.kt:107-137 | a memo key is mentioned by the paths, its node has its path, and its key is its insertion key at the top and its step below |
| CommentInput.RankOfDistinct | unit/postdetail/src/commonMain/kotlin/com/github/diegoberaldin/raccoonforlemmy/unit/postdetail/utils/CommentUtils.kt:21-24 | with distinct ids, each comment's position is recorded under its id, and only input ids have one |
| CommentSteps.FirstStepLeast | unit/postdetail/src/commonMain/kotlin/com/github/diegoberaldin/raccoonforlemmy/unit/postdetail/utils/CommentUtils.kt:27-36 | no walk before the first creating step reaches the id |
| CommentSteps.FirstStepFound | unit/postdetail/src/commonMain/kotlin/com/github/diegoberaldin/raccoonforlemmy/unit/postdetail/utils/CommentUtils.kt:27-36 | the first creating step, when there is one, is a step whose walk reaches the id |
| CommentSteps.CreatedPath | unit/postdetail/src/commonMain/kotlin/com/github/diegoberaldin/raccoonforlemmy/unit/postdetail/utils/CommentUtils.kt:120-128 | an id the walk of step k reaches lies on comment k's path, which gives its own path |
| CommentSteps.TopLevelDepth | unit/postdetail/src/commonMain/kotlin/com/github/diegoberaldin/raccoonforlemmy/unit/postdetail/utils/CommentUtils.kt:151-153 | all gathered replies lie at one depth |
| CommentSteps.SiblingKeysDistinct | unit/postdetail/src/commonMain/kotlin/com/github/diegoberaldin/raccoonforlemmy/unit/postdetail/utils/CommentUtils.kt:118-128 | two different siblings that the pass attaches never share a key |
| CommentSteps.StepsOfPlaceholders | unit/postdetail/src/commonMain/kotlin/com/github/diegoberaldin/raccoonforlemmy/unit/postdetail/utils/CommentUtils.kt:120-137 | one walk creates at most one placeholder per depth |
| CommentSteps.StepBelowComment | unit/postdetail/src/commonMain/kotlin/com/github/diegoberaldin/raccoonforlemmy/unit/postdetail/utils/CommentUtils.kt:114-137 | a comment and a placeholder at the same depth are never attached at the same step |
| SiblingOrder.KeyOfComment | unit/postdetail/src/commonMain/kotlin/com/github/diegoberaldin/raccoonforlemmy/unit/postdetail/utils/CommentUtils.kt:27-36 | an input comment's key is its input position, at every depth |
| SiblingOrder.KeyOfFirstWalk | unit/postdetail/src/commonMain/kotlin/com/github/diegoberaldin/raccoonforlemmy/unit/postdetail/utils/CommentUtils.kt:120-128 | a placeholder the first walk creates has key 0 below the top and comes after every comment at the top |
| SiblingOrder.PlaceholderBeforeLaterComment | unit/postdetail/src/commonMain/kotlin/com/github/diegoberaldin/raccoonforlemmy/unit/postdetail/utils/CommentUtils.kt:118-126 | without an ancestor, a placeholder created at step 0 comes before a sibling comment the input lists second |
| SiblingOrder.TopLevelPlaceholderLast | unit/postdetail/src/commonMain/kotlin/com/github/diegoberaldin/raccoonforlemmy/unit/postdetail/utils/CommentUtils.kt:151-153 | below an ancestor, the same placeholder comes after the sibling comment, because the filter walks the memo in insertion order |
| SiblingOrder.ParentlessPlaceholderKey | unit/postdetail/src/commonMain/kotlin/com/github/diegoberaldin/raccoonforlemmy/unit/postdetail/utils/CommentUtils.kt:120-128 | in the thread `5`, `0.3`, the placeholder 0 is created at step 1 and sits at the top, so its key is 2 + 1 = 3 |
| SiblingOrder.ParentlessKeys | unit/postdetail/src/commonMain/kotlin/com/github/diegoberaldin/raccoonforlemmy/unit/postdetail/utils/CommentUtils.kt:21-24 | in that thread, 5 and 0 are siblings at the top with keys 0 and 3, and 3 lies below 0 |
| SiblingOrder.ParentlessBeforePostReplies | unit/postdetail/src/commonMain/kotlin/com/github/diegoberaldin/raccoonforlemmy/unit/postdetail/utils/CommentUtils.kt:151-162 | without an ancestor the parentless comment 5 comes before the reply 3, in any listing whose subtrees are in thread order |
| CommentSort.InputInScopeKept | unit/postdetail/src/commonMain/kotlin/com/github/diegoberaldin/raccoonforlemmy/unit/postdetail/utils/CommentUtils.kt:18-61 | completeness: every input comment with a non-zero id inside the requested part of the thread is in the result, unchanged (without an ancestor, all of them) |
| CommentSort.AncestorLeftOut | unit/postdetail/src/commonMain/kotlin/com/github/diegoberaldin/raccoonforlemmy/unit/postdetail/utils/CommentUtils.kt:151-153 | the ancestor itself is never in the result restricted to it |
| SortedInput.BeforeFirst | unit/postdetail/src/commonMain/kotlin/com/github/diegoberaldin/raccoonforlemmy/unit/postdetail/utils/CommentUtils.kt:157-163 | in any nested order of the input with siblings in input order, a comment placed before another by its path comes first |
| SortedInput.GapFreeNestedInputKept | unit/postdetail/src/commonMain/kotlin/com/github/diegoberaldin/raccoonforlemmy/unit/postdetail/utils/CommentUtils.kt:18-61 | an input that is a gap-free nested listing below the post comes back unchanged, without an ancestor |
| TextFormatting.Bold | core-commonui/lemmyui/src/commonMain/kotlin/com/github/diegoberaldin/raccoonforlemmy/core/commonui/lemmyui/TextFormattingBar.kt:37-69 | text before and after the selection kept verbatim, the selection (or `text here`) wrapped in `**`; the selection shifts by 2, or the cursor collapses at start + 11 |
| TextFormatting.Italic | core-commonui/lemmyui/src/commonMain/kotlin/com/github/diegoberaldin/raccoonforlemmy/core/commonui/lemmyui/TextFormattingBar.kt:75-107 | the same with `*`: shift by 1, or cursor at start + 10 |
| TextFormatting.Strikethrough | core-commonui/lemmyui/src/commonMain/kotlin/com/github/diegoberaldin/raccoonforlemmy/core/commonui/lemmyui/TextFormattingBar.kt:113-145 | the same with `~~`: shift by 2, or cursor at start + 11 |
| TextFormatting.Link | core-commonui/lemmyui/src/commonMain/kotlin/com/github/diegoberaldin/raccoonforlemmy/core/commonui/lemmyui/TextFormattingBar.kt:160-192 | `[` before and `](URL here)` after the selection (or `text here`): shift by 1, or cursor at start + 10, before `]` |
| TextFormatting.Code | core-commonui/lemmyui/src/commonMain/kotlin/com/github/diegoberaldin/raccoonforlemmy/core/commonui/lemmyui/TextFormattingBar.kt:198-230 | the same with a backtick: shift by 1, or cursor at start + 10 |
| TextFormatting.Quote | core-commonui/lemmyui/src/commonMain/kotlin/com/github/diegoberaldin/raccoonforlemmy/core/commonui/lemmyui/TextFormattingBar.kt:236-253 | the selection replaced by a newline and `> `, text around it kept, cursor right after the prefix (start + 3) |
| TextFormatting.BulletedList | core-commonui/lemmyui/src/commonMain/kotlin/com/github/diegoberaldin/raccoonforlemmy/core/commonui/lemmyui/TextFormattingBar.kt:259-276 | the same with a newline and `- `, cursor at start + 3 |
| TextFormatting.NumberedList | core-commonui/lemmyui/src/commonMain/kotlin/com/github/diegoberaldin/raccoonforlemmy/core/commonui/lemmyui/TextFormattingBar.kt:282-299 | the same with a newline and `1. `, cursor at start + 4 |
| TextFormatting.SurroundUndo | core-commonui/lemmyui/src/commonMain/kotlin/com/github/diegoberaldin/raccoonforlemmy/core/commonui/lemmyui/TextFormattingBar.kt:40-65 | with a non-empty selection, the new selection covers exactly the old selected text, and removing the markers around it gives back the old text |
| TextFormatting.SurroundEmptyUndo | core-commonui/lemmyui/src/commonMain/kotlin/com/github/diegoberaldin/raccoonforlemmy/core/commonui/lemmyui/TextFormattingBar.kt:40-62 | with an empty selection, the cursor sits right after `text here`, and removing markers and placeholder gives back the old text |
| TextFormatting.PrefixUndo | core-commonui/lemmyui/src/commonMain/kotlin/com/github/diegoberaldin/raccoonforlemmy/core/commonui/lemmyui/TextFormattingBar.kt:237-250 | removing the prefix before the cursor gives the old text without the selection |
| TextFormatting.BoldOnEmptyField | core-commonui/lemmyui/src/commonMain/kotlin/com/github/diegoberaldin/raccoonforlemmy/core/commonui/lemmyui/TextFormattingBar.kt:37-69 | bold on an empty field gives `**text here**` with the cursor at 11 |

## Where the code decides

The comment-tree algorithm is often described differently in three places. The model follows the code in each.

- `populateLoadMoreComments` has no maximum-depth test. Its flag needs a next element whose depth is at most the current one, so the last comment of the list is never flagged (`LoadMore.LastNeverFlagged`, `LoadMore.NoFlagWithoutFollower`).
- The stand-in record for a missing comment gets only an id, empty text and `removed`. Its path is not copied from the placeholder (`Comments.Tombstone`).
- With an ancestor id, `joinForestUnderSingleRoot` gathers only the nodes whose parent is that ancestor. Parentless nodes are not gathered, because `node.parent?.id == ancestorId` is false for them (`CommentForest.Roots`).

## Left out

- String paths: `split(".")` and `toInt()` (CommentUtils.kt:107-112) are not modelled. Paths are parsed sequences of ids, so a malformed path, on which the Kotlin code throws, cannot occur.
- The placeholder-to-actual upgrade (CommentUtils.kt:96-105) is not modelled. Every node the source passes to `connectNodesAndGeneratePlaceholders` as an Actual is already stored in the memo as that same Actual node, so the branch never fires when ids are distinct.
- CommentSort.SortToNestedOrder: requires `WellFormed` (distinct ids, paths ending in their own id, consistent paths). The Kotlin code does not check this, but it relies on it. With a duplicate id a node is linked twice, and `linearize` can loop (id 5 with paths `0.5` and `5.5`). With paths that disagree, comments are lost or misplaced (id 2 with path `1.2` and id 1 with path `2.1` give an empty result).
- CommentTree.ConnectNodesAndGeneratePlaceholders: takes the current node as its memo key, not as an object reference. It carries two ghost parameters that the proof needs: the input paths, and the ids not linked yet.
- CommentSort.BuildMemo, CommentSort.ConnectAll: the two `for` loops of `sortToNestedOrder` are separate methods, and `linearize`'s loop over children is `LinearizeChildren`. Object identity of nodes and aliasing between the memo and the child lists are not modelled: links are ids.
- CommentForest.JoinForestUnderSingleRoot: its statement about the children assumes a consistent memo (`Keyed`). The root is a value, not an object added to the memo.
- Comments.Tombstone: `CommentModel` is not part of this model. The defaults the Kotlin call leaves to it (path, depth, reply count, flag) are assumed to be empty, 0, none and false.
- SortedInput.GapFreeNestedInputKept: it is stated for any result that meets `SortToNestedOrder`'s postcondition, because a lemma cannot call the method. It needs an input with no comment of id 0, every path starting at 0, and every ancestor present.
- TextFormatting: a `char` stands for one UTF-16 code unit of the Kotlin string. Selection offsets and the lengths in the cursor arithmetic count code units, so a character outside the Basic Multilingual Plane counts as two.
- The image button (TextFormattingBar.kt:149-157) is not modelled: it only calls `onSelectImage`. Reversed (backward) selections are not modelled either, because every button requires `start <= end <= |text|`.
- The Compose layout of the bar and of the post screen, the view models, dependency injection and networking are not modelled.
