# Anony discussion board — verified model of its core logic

Anony is a single-page discussion board. All of its state lives in the browser's
`localStorage`. Visitors post discussions with comma-separated tags. They vote each discussion,
and each comment, up or down, at most once. They comment and reply to comments at any depth,
and search everything, with the hits highlighted. This project models, in Dafny, the logic
inside `script.js`:

- **Text primitives** (`text.dfy`, module `Text`): `trim`, `toLowerCase`, `includes`,
  `split(',')` and `join` as the board uses them.
- **Escaping** (`html.dfy`, module `Html`): `escapeHtml`, a chain of five replace-all passes. It
  is proved equal to escaping each character on its own. The output holds no `<`, `>`, `"` or
  `'`, and decoding the five character references gives the input back.
- **Highlighting** (`highlight.dfy`, module `Highlight`): `highlightText` is kept as the `while`
  loop the page runs. It is proved equal to a function that cuts the text into plain stretches
  and case-insensitive hits of the trimmed query. Removing the mark tags and unescaping gives
  the text back.
- **Comment tree** (`comments.dfy`, module `Comments`):
  - comments are a recursive datatype, and a comment is addressed by a path of indices;
  - the pre-order walk `Flat` is the view used for counting, searching and "nothing else
    changes";
  - `countComments` is the accumulating method, and each append adds exactly one node;
  - a vote changes exactly one entry of the walk, by the vote's delta.
- **Posts** (`posts.dfy`, module `Posts`):
  - `createPostObject` and its tag parsing;
  - the new-post form guard;
  - `matchesPost`, with its recursive comment search;
  - the newest-first, search-filtered list that `renderAll` draws;
  - `loadPosts`.
- **Votes** (`votes.dfy`, module `Votes`):
  - the storage keys `vote_<post>`, `vote_<post>_<comment>` and `<action>_<post>`;
  - the one-shot rule of the vote buttons, as a `Click` on a (flag, score) pair;
  - the *ledger* invariant: every stored flag agrees with the score it guards (no flag and
    score 0, `"up"` and 1, or `"down"` and -1), post ids are distinct, and comment ids are
    distinct within their post.
- **The page** (`board.dfy`, module `Page`): a `Board` class with these fields:
  - `store`, the `localStorage` map;
  - `posts`;
  - `currentSearch`;
  - `encode`, which stands for `JSON.stringify`.

  Its methods are the storage helpers and the event handlers: the vote buttons, the comment
  and reply forms, the new-post form, the search box and the list that `renderAll` draws. Each
  handler states its exact new state, and each preserves the ledger.

A handler closes over the JavaScript objects it was built for. Here it reaches a post by its
index in `posts` and a comment by its path. Ids are parameters. The freshness a random id gives
in practice is stated as a precondition of the ledger clause (`FreshComment`, `FreshPost`).

## Model

| member | source | states |
|---|---|---|
| Text.Trim | script.js:92 | `String.prototype.trim`: `TrimIsSlice`, `TrimEmptyIff` and `TrimIdempotent` state that it cuts exactly the leading and trailing ECMAScript white space |
| Text.TrimStartSpec | script.js:92 | `trim` drops the longest all-white-space prefix and stops at the first other character |
| Text.TrimEndSpec | script.js:92 | `trim` drops the longest all-white-space suffix and stops at the last other character |
| Text.TrimIsSlice | script.js:345-347 | a trimmed value is a slice of the input, with only white space cut on either side and no white space at its own ends |
| Text.TrimIdempotent | script.js:366 | trimming twice equals trimming once |
| Text.TrimEmptyIff | script.js:297-298 | the trimmed text is empty exactly when every character of the input is white space (the blank-input guards) |
| Text.TrimChars | script.js:327 | every character of the trimmed text occurs in the input |
| Text.Lower | script.js:63-70 | `toLowerCase`, one character at a time: the length is kept, ASCII capitals become small letters and every other character is kept; `LowerIdempotent` shows lowering twice is lowering once |
| Text.LowerIdempotent | script.js:63 | lowering twice equals lowering once |
| Text.Includes | script.js:64-70 | `s.includes(sub)`: some index of `s` starts an occurrence of `sub`; `MatchesPostIff` and `CommentsMatchIff` are stated with it |
| Text.Join | script.js:66 | `parts.join(sep)`; `Split` and `SplitJoin` show that splitting undoes joining separator-free pieces |
| Text.Split | script.js:115 | `split(',')` gives at least one piece, no piece holds the separator, and joining the pieces with the separator gives the input back |
| Text.SplitJoin | script.js:115 | splitting a join of separator-free pieces gives the pieces back |
| Html.ReplaceAll | script.js:82-86 | `.replace(/c/g, rep)` for a one-character pattern; `ReplaceAllConcat` shows it acts on each character independently |
| Html.EscapeHtml | script.js:79-87 | the five chained global replacements; what they produce is characterised by `EscapeHtmlIsPerChar`, `EscapeHtmlSafe` and `EscapeHtmlRoundTrip` |
| Html.ReplaceAllConcat | script.js:82-86 | a global replace of one character distributes over concatenation |
| Html.EscapeHtmlConcat | script.js:80-87 | escaping distributes over concatenation |
| Html.EscapeHtmlOne | script.js:80-87 | on one character the five passes give that character's own reference, or the character itself |
| Html.EscapeHtmlIsPerChar | script.js:80-87 | the chain of five replacements equals escaping each character independently, so `&amp;` is never escaped twice |
| Html.EscapeHtmlSafe | script.js:79-87 | escaped text contains no `<`, `>`, `"` or `'` |
| Html.EscapeHtmlRoundTrip | script.js:79-87 | decoding the five references in escaped text gives back the input |
| Highlight.NextMatch | script.js:95-100 | `re.exec` from `lastIndex` reports a match starting at or after `lastIndex` and lying wholly inside the text, or none |
| Highlight.NextMatchSpec | script.js:95-100 | the match reported is a case-insensitive occurrence of the query, and no occurrence starts between `lastIndex` and it; when none is reported, no occurrence starts at or after `lastIndex` |
| Highlight.PiecesSpec | script.js:96-106 | the scan cuts the text into plain stretches and hits; together they are the text in order with its own casing; each hit equals the query up to case; no plain stretch holds an occurrence |
| Highlight.PiecesUnfold | script.js:100-103 | one round of the loop: the text before the next match, then the match, then the scan resumes after it |
| Highlight.RoundKeeps | script.js:100-104 | each round of the loop keeps its invariant: the output so far, followed by the markup of the scan from the new `lastIndex`, is the whole markup |
| Highlight.MarkupLast | script.js:106 | after the last match the rest of the text is escaped as is |
| Highlight.StripMarksOfMarkup | script.js:101-102 | removing the mark tags from the markup of the pieces leaves the escaped text they cover |
| Highlight.HighlightOnlyAddsMarks | script.js:90-108 | the highlighted markup without its mark tags is exactly `escapeHtml(text)` |
| Highlight.HighlightRoundTrip | script.js:90-108 | deleting the mark tags and unescaping gives back the original text exactly |
| Highlight.Highlight | script.js:90-108 | the value `highlightText` returns: `escapeHtml(text)` for a blank query, otherwise the markup of the scan; `HighlightOnlyAddsMarks` and `HighlightRoundTrip` say what it means, and `HighlightText` proves the loop computes it |
| Highlight.HighlightText | script.js:90-108 | the loop returns `escapeHtml(text)` for an empty or white-space query, and otherwise the markup of the scan's pieces |
| Comments.FlatConcat | script.js:316-323 | the walk of two comment lists is the two walks in sequence |
| Comments.CountComments | script.js:316-323 | the count is the number of nodes of the forest at every depth, each counted once |
| Comments.CountExample | script.js:316-323 | a root with two replies, one of which has a reply of its own, counts 4 |
| Comments.FlatAt | script.js:316-323 | the node at a path is entry `Pos` of the walk, and its subtree follows it there |
| Comments.AddCommentFlat | script.js:329-330 | a pushed top-level comment is one new entry at the end of the walk; every other entry is unchanged |
| Comments.AddReply | script.js:298-300 | `c.replies.push(reply)` on the comment at a path; `AddReplyTarget`, `AddReplyKeeps`, `AddReplyNewPaths` and `AddReplyFlat` characterise it |
| Comments.AddReplyTarget | script.js:298-300 | the comment at the path keeps its id, text and score, its replies become the old replies followed by the new reply, and the reply is reachable at the index one past the old last reply |
| Comments.AddReplyKeeps | script.js:298-300 | every node that existed is still at the same path with the same id, text and score, and a node whose subtree does not hold the reply's parent is entirely unchanged |
| Comments.AddReplyNewPaths | script.js:298-300 | for a reply without replies, the valid paths afterwards are exactly the old ones plus the path of the new reply |
| Comments.AddReplyFlat | script.js:299-301 | a pushed reply is one new entry inserted right after its parent's subtree; all other entries keep id, text, score and order |
| Comments.AppendCountsOne | script.js:316-334 | each accepted comment or reply raises `countComments` by exactly one |
| Comments.AddScore | script.js:263-276 | `c.score += 1` or `-= 1` on the comment at a path; `AddScoreFlat` and `AddScoreKeepsPaths` characterise it |
| Comments.AddScoreFlat | script.js:263-276 | a comment vote changes only the targeted entry of the walk, whose score moves by the delta |
| Comments.AddScoreKeepsPaths | script.js:263-276 | a score change keeps exactly the same set of paths valid |
| Posts.Filter | script.js:58 | `Array.prototype.filter`; `FilterSpec` and `FilterCount` state what it keeps |
| Posts.FilterSpec | script.js:58 | `filter` keeps an order-preserving subsequence made of exactly the elements that pass the test, every copy of an accepted element and no copy of a rejected one |
| Posts.FilterCount | script.js:58 | an element occurs in the result as often as in the input when it passes the test, and not at all otherwise |
| Posts.Reverse | script.js:57 | `slice().reverse()` has the same length, with element `k` taken from position `n-1-k` |
| Posts.ReverseMultiset | script.js:57 | `slice().reverse()` keeps every post, as often as it occurs |
| Posts.FilterReverseCount | script.js:57-58 | filtering the reversed list keeps each accepted element as often as it occurs in the list, and no rejected one |
| Posts.TrimEach | script.js:115 | `map(t => t.trim())` keeps the length and trims each element |
| Posts.ParseTags | script.js:115 | `tags ? tags.split(',').map(t => t.trim()).filter(Boolean) : []`; `ParseTagsClean`, `ParseTagsJoin` and `ParseTagsExample` characterise it |
| Posts.ParseTagsClean | script.js:115 | every parsed tag is non-empty, already trimmed and free of commas |
| Posts.ParseTagsJoin | script.js:115 | clean tags joined with commas parse back to the same list, in order and with duplicates kept |
| Posts.ParseTagsExample | script.js:115 | `"a, b ,, c"` parses to `["a","b","c"]` and `""` to `[]` |
| Posts.CreatePostObject | script.js:110-119 | the new post object; `NewPostShape` states its shape |
| Posts.NewPostShape | script.js:110-119 | a new post keeps its id, title and description, has score 0, has no comments and has clean tags |
| Posts.PostFromForm | script.js:345-349 | the form yields a post exactly when the trimmed title and trimmed description are both non-empty |
| Posts.PostFormAcceptsIff | script.js:348 | the form is accepted exactly when title and description each hold a non-white-space character |
| Posts.CommentsMatch | script.js:68-74 | the recursive comment search with early returns; `CommentsMatchIff` states what it decides |
| Posts.MatchesPost | script.js:62-77 | `matchesPost(post, query)`; `MatchesPostIff` states what it decides in both directions |
| Posts.CommentsMatchIff | script.js:68-74 | the recursive search with early returns succeeds exactly when some comment text at any depth contains the lowered query |
| Posts.MatchesPostIff | script.js:62-77 | a post matches exactly when the lowered query occurs in the lowered title, the description, the space-joined tags, or some comment text at any depth |
| Posts.DeepCommentMatches | script.js:71-75 | a hit in one comment, however deep, makes the post match |
| Posts.MatchesPostCaseInsensitive | script.js:63 | lowering the query first does not change the result |
| Posts.Shown | script.js:57-58 | an empty search shows `reverse(posts)`; otherwise the result is an order-preserving subsequence of `reverse(posts)`: every shown post is stored and matches, and every stored match is shown; with a search, each post is shown exactly as many times as it is stored when it matches, and not at all otherwise |
| Posts.NewestShownFirst | script.js:350-353 | a post just appended is drawn first, unless a search it does not match is set |
| Posts.LoadPosts | script.js:39-48 | absent or empty storage yields no posts, and so does text that does not parse |
| Posts.LoadSaved | script.js:35-48 | posts saved with an encoding the decoder inverts load back unchanged |
| Votes.ActionKey | script.js:8 | the key `${action}_${discussionId}`; `KeyKinds` shows it is not a vote key for the actions the board uses |
| Votes.VoteKey | script.js:18 | the key `vote_${discussionId}`; `VoteKeyInjective` and `KeyKinds` characterise it |
| Votes.CommentVoteKey | script.js:28 | the key `vote_${postId}_${commentId}`; `CommentVoteKeyInjective` and `PostKeyNotCommentKey` characterise it |
| Votes.Lookup | script.js:9 | `localStorage.getItem(key)`: the stored string, or `null` as `None` when the key is absent; `SetVote` and `SetCommentVote` ensure a written vote reads back |
| Votes.KeyKinds | script.js:7-33 | both kinds of vote key start with `vote_`; the action marker key and the posts key do not |
| Votes.VoteKeyInjective | script.js:18 | two posts share a vote key exactly when they share an id |
| Votes.CommentVoteKeyInjective | script.js:28 | for post ids without `_`, two comment vote keys are equal exactly when both ids are equal |
| Votes.PostKeyNotCommentKey | script.js:17-28 | a post's vote key is never a comment's vote key, when the post id has no `_` |
| Votes.Click | script.js:178-205 | one vote button click on a flag and score: refused when a vote is recorded, otherwise the direction is recorded and the score moves by ±1; `ClicksAfterVote`, `FirstClickWins` and `ClicksKeepConsistent` characterise it |
| Votes.ClicksAfterVote | script.js:178-282 | once a vote is recorded, any run of clicks changes neither the flag nor the score |
| Votes.FirstClickWins | script.js:178-211 | from an unvoted state only the first click of a run counts: its direction is recorded and the score moves by its delta |
| Votes.ClicksKeepConsistent | script.js:178-211 | clicks keep the flag and the score in agreement, so a score starting at 0 with no flag stays in -1..1 |
| Votes.LedgerOtherKey | script.js:11-37 | writing a key that is not a vote key keeps the ledger |
| Votes.LedgerPostVote | script.js:185-205 | an accepted post vote keeps the ledger |
| Votes.LedgerCommentVote | script.js:263-278 | an accepted comment vote keeps the ledger |
| Votes.CommentVoteOwnPost | script.js:263-265 | a vote on a comment with no flag yet writes that flag and moves only that comment's score, so its post's flags stay in agreement |
| Votes.CommentVoteOtherPosts | script.js:276-278 | writing a comment vote key of one post changes no flag that any other post reads |
| Votes.LedgerInsertComment | script.js:299-330 | inserting a fresh comment with score 0 into the walk keeps the ledger |
| Votes.LedgerAddPost | script.js:349-350 | appending a fresh post with score 0 and no comments keeps the ledger |
| Page.AddPostLedger | script.js:349-351 | adding a fresh post and then saving keeps the ledger |
| Page.ReplyLedger | script.js:294-304 | a reply with a fresh id and score 0, pushed anywhere in the tree, keeps the ledger |
| Page.Board.constructor | script.js:50-51 | on page load the posts are what `loadPosts` gives, the search is empty and storage is untouched |
| Page.Board.HasAction | script.js:7-10 | whether `<action>_<id>` holds `"true"`; `SetAction` ensures it afterwards |
| Page.Board.SetAction | script.js:11-14 | exactly the key `<action>_<id>` becomes `"true"` |
| Page.Board.GetVote | script.js:17-19 | what is stored under `vote_<id>`, absent as `None`; `SetVote` ensures it reads back the written vote |
| Page.Board.SetVote | script.js:20-24 | `"up"` or `"down"` is written under exactly `vote_<id>`; any other value leaves the store unchanged |
| Page.Board.GetCommentVote | script.js:27-29 | what is stored under `vote_<post>_<comment>`; `SetCommentVote` ensures it reads back the written vote |
| Page.Board.SetCommentVote | script.js:30-33 | `"up"` or `"down"` is written under exactly `vote_<post>_<comment>`; any other value leaves the store unchanged |
| Page.Board.SavePosts | script.js:35-37 | exactly the posts key is rewritten, with the encoded post list |
| Page.Board.VotePost | script.js:178-211 | refused, changing nothing, when a vote is recorded; otherwise the score moves by ±1, `vote_<id>` and `<up/down>vote_<id>` are written and the posts are saved; the ledger is preserved |
| Page.Board.VoteComment | script.js:258-282 | the same one-shot rule under `vote_<post>_<comment>`, with no action marker; only the targeted comment's score changes; the ledger is preserved |
| Page.Board.SubmitComment | script.js:325-334 | blank text changes nothing; otherwise a comment with the trimmed text and score 0 is appended to the post's comments and saved; the ledger is preserved |
| Page.Board.SubmitReply | script.js:294-304 | blank text changes nothing; otherwise a reply with the trimmed text and score 0 is appended to the target comment's replies and saved; every other node is unchanged; the ledger is preserved |
| Page.Board.SubmitPost | script.js:343-355 | a post is added at the end and saved exactly when the guard accepts; it is then drawn first unless the search excludes it; the ledger is preserved |
| Page.Board.UpdateSearch | script.js:366 | the search becomes the trimmed input |
| Page.Board.RenderAll | script.js:54-59 | the posts drawn are `Shown(posts, currentSearch)`: reversed, then filtered when the search is not empty |

## Left out

- DOM and presentation are not modelled: element creation, `innerHTML` templates, disabling
  buttons, the `voted` class, `alert` and the reply form's creation (script.js:121-176,
  216-257, 284-292). Only the effects on scores, comments and storage are kept.
- The search box's debounce timer (script.js:362-369) is not modelled. Only its effect,
  `currentSearch` becoming the trimmed input, is kept (`Page.Board.UpdateSearch`).
  `renderAll` is a separate method.
- `JSON.stringify` and `JSON.parse` are function parameters (`encode`, `decode`). A blob that
  parses to something other than a post list is out of scope. So is the `console.error` call.
- Ids from `Date.now()` and `Math.random()` are parameters. The ledger clauses assume a
  fresh id. For posts, that id also contains no `_`, as real timestamp ids never do.
- Text.Lower: `toLowerCase` is modelled for ASCII letters only. Other characters are left
  unchanged, so searches on non-ASCII text may differ from a browser.
- Highlight.NextMatch: the `RegExp` built from the escaped query with the `ig` flags is modelled
  as a literal scan with ASCII case folding. The regex engine's own Unicode case folding is not
  modelled.
- Highlight.HighlightText: the zero-width-match guard at script.js:104 cannot fire, because
  the query is non-empty after trimming. The model keeps it as a branch proved dead.
- Characters are Dafny `char`s. UTF-16 surrogate pairs are not distinguished from single code
  units.
- A stored vote flag can outlive the post it belongs to (for example after the posts key is
  cleared). This concerns the external store and is not reconciled.
- Top-level comments are created without a `score` field (script.js:329). The renderer
  defaults it to 0 (script.js:224) before any vote can change it, so the model gives them
  score 0 when they are created.
