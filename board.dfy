/**
 * The page's state and its event handlers: `localStorage`, the in-memory `posts` list and the
 * search box's `currentSearch`, changed in place by the storage helpers (script.js:7-37), the
 * vote buttons (script.js:178-211, 258-282), the comment and reply forms (script.js:294-304,
 * 325-334), the new-post form (script.js:343-355) and the search box (script.js:363-369).
 * A handler reaches the post it was built for by its index in `posts`, and a comment by its path.
 */
module Page {
  import opened Wrappers
  import opened Text
  import opened Comments
  import opened Posts
  import opened Votes

  /** A comment id that is new in post `p` and has no vote recorded under it yet. */
  predicate FreshComment(store: map<string, string>, p: Post, id: string)
  {
    && CommentVoteKey(p.id, id) !in store
    && forall k :: 0 <= k < |Flat(p.comments)| ==> Flat(p.comments)[k].id != id
  }

  /** A post id that fits the composite keys, is not in use and has no vote recorded under it yet. */
  predicate FreshPost(store: map<string, string>, posts: seq<Post>, id: string)
  {
    && KeySafe(id)
    && VoteKey(id) !in store
    && forall k :: 0 <= k < |posts| ==> posts[k].id != id
  }

  /** Adding a fresh post with score zero and no comments, then saving, keeps the ledger. */
  lemma AddPostLedger(store: map<string, string>, posts: seq<Post>, p: Post, blob: string)
    requires Ledger(store, posts) && FreshPost(store, posts, p.id)
    requires p.score == 0 && p.comments == []
    ensures Ledger(store[StorageKey := blob], posts + [p])
  {
    KeyKinds(p.id, p.id, "", Up);
    LedgerAddPost(store, posts, p);
    LedgerOtherKey(store, posts + [p], StorageKey, blob);
  }

  /** A reply with a new id and score zero (script.js:294-304) keeps the ledger. */
  lemma ReplyLedger(store: map<string, string>, posts: seq<Post>, i: nat, path: seq<nat>, node: Comment)
    requires Ledger(store, posts) && i < |posts| && ValidPath(posts[i].comments, path)
    requires node.score == 0 && node.replies == [] && FreshComment(store, posts[i], node.id)
    ensures Ledger(store, posts[i := posts[i].(comments := AddReply(posts[i].comments, path, node))])
  {
    var p := posts[i];
    AddReplyFlat(p.comments, path, node);
    var e := SubtreeEnd(p.comments, path);
    LedgerInsertComment(store, posts, i, AddReply(p.comments, path, node), e, node);
  }

  class Board {
    /** `localStorage` */
    var store: map<string, string>
    /** The posts in memory, oldest first. */
    var posts: seq<Post>
    /** The trimmed text of the search box. */
    var currentSearch: string
    /** `JSON.stringify` on the post list. */
    const encode: seq<Post> -> string

    /** Page load (script.js:50-51): the posts come from storage, the search is empty. */
    constructor (initial: map<string, string>, encode: seq<Post> -> string,
                 decode: string -> Option<seq<Post>>)
      ensures store == initial && currentSearch == "" && this.encode == encode
      ensures posts == LoadPosts(Lookup(initial, StorageKey), decode)
    {
      store := initial;
      this.encode := encode;
      posts := LoadPosts(Lookup(initial, StorageKey), decode);
      currentSearch := "";
    }

    /** `hasAction(discussionId, action)` */
    function HasAction(id: string, action: string): bool
      reads this
    {
      Lookup(store, ActionKey(id, action)) == Some("true")
    }

    /** `setAction(discussionId, action)` */
    method SetAction(id: string, action: string)
      modifies this`store
      ensures store == old(store)[ActionKey(id, action) := "true"]
      ensures HasAction(id, action)
    {
      store := store[ActionKey(id, action) := "true"];
    }

    /** `getVote(discussionId)` */
    function GetVote(id: string): Option<string>
      reads this
    {
      Lookup(store, VoteKey(id))
    }

    /** `setVote(discussionId, vote)`: anything but `"up"` or `"down"` is ignored. */
    method SetVote(id: string, vote: string)
      modifies this`store
      ensures vote == "up" || vote == "down" ==> store == old(store)[VoteKey(id) := vote]
      ensures vote == "up" || vote == "down" ==> GetVote(id) == Some(vote)
      ensures vote != "up" && vote != "down" ==> store == old(store)
    {
      if vote != "up" && vote != "down" {
        return;
      }
      store := store[VoteKey(id) := vote];
    }

    /** `getCommentVote(postId, commentId)` */
    function GetCommentVote(postId: string, commentId: string): Option<string>
      reads this
    {
      Lookup(store, CommentVoteKey(postId, commentId))
    }

    /** `setCommentVote(postId, commentId, vote)`: anything but `"up"` or `"down"` is ignored. */
    method SetCommentVote(postId: string, commentId: string, vote: string)
      modifies this`store
      ensures vote == "up" || vote == "down" ==> store == old(store)[CommentVoteKey(postId, commentId) := vote]
      ensures vote == "up" || vote == "down" ==> GetCommentVote(postId, commentId) == Some(vote)
      ensures vote != "up" && vote != "down" ==> store == old(store)
    {
      if vote != "up" && vote != "down" {
        return;
      }
      store := store[CommentVoteKey(postId, commentId) := vote];
    }

    /** `savePosts(posts)` */
    method SavePosts()
      modifies this`store
      ensures store == old(store)[StorageKey := encode(posts)]
    {
      store := store[StorageKey := encode(posts)];
    }

    /**
     * A click on a post's up or down button (script.js:178-211). The first click moves the
     * score, records the direction and the action marker and saves; once a vote is recorded
     * every click is refused and changes nothing. The vote flags stay in agreement with the scores.
     */
    method VotePost(i: nat, d: Direction) returns (accepted: bool)
      requires i < |posts|
      modifies this`store, this`posts
      ensures |posts| == |old(posts)| && posts[i].id == old(posts[i].id)
      ensures accepted == !Truthy(old(GetVote(posts[i].id)))
      ensures Tally(GetVote(posts[i].id), posts[i].score) ==
              Click(Tally(old(GetVote(posts[i].id)), old(posts[i].score)), d)
      ensures accepted ==> posts == old(posts)[i := old(posts[i]).(score := old(posts[i].score) + d.Delta())]
      ensures accepted ==> store == old(store)[VoteKey(posts[i].id) := d.Name()]
                                              [ActionKey(posts[i].id, d.Action()) := "true"]
                                              [StorageKey := encode(posts)]
      ensures accepted ==> HasAction(posts[i].id, d.Action())
      ensures !accepted ==> posts == old(posts) && store == old(store)
      ensures Ledger(old(store), old(posts)) ==> Ledger(store, posts)
    {
      var post := posts[i];
      if Truthy(GetVote(post.id)) {
        accepted := false;
        return;
      }
      ghost var store0, posts0 := store, posts;
      posts := posts[i := post.(score := post.score + d.Delta())];
      SetVote(post.id, d.Name());
      SetAction(post.id, d.Action());
      SavePosts();
      accepted := true;
      KeyKinds(post.id, post.id, "", d);
      assert StorageKey[0] != ActionKey(post.id, d.Action())[0];
      if Ledger(store0, posts0) {
        LedgerPostVote(store0, posts0, i, d);
        var s1 := store0[VoteKey(post.id) := d.Name()];
        LedgerOtherKey(s1, posts, ActionKey(post.id, d.Action()), "true");
        LedgerOtherKey(s1[ActionKey(post.id, d.Action()) := "true"], posts, StorageKey, encode(posts));
      }
    }

    /**
     * A click on a comment's up or down button (script.js:258-282): as for posts, under the
     * comment's own flag and without an action marker. Only the voted comment's entry of the
     * walk changes, by its score, and the same paths stay valid.
     */
    method VoteComment(i: nat, path: seq<nat>, d: Direction) returns (accepted: bool)
      requires i < |posts| && ValidPath(posts[i].comments, path)
      modifies this`store, this`posts
      ensures |posts| == |old(posts)| && posts[i].id == old(posts[i].id)
      ensures ValidPath(posts[i].comments, path)
      ensures var cid := old(At(posts[i].comments, path).id);
              accepted == !Truthy(old(GetCommentVote(posts[i].id, cid)))
      ensures var pos := old(Pos(posts[i].comments, path));
              && pos < |Flat(posts[i].comments)| == |old(Flat(posts[i].comments))|
              && Flat(posts[i].comments)[pos].id == old(At(posts[i].comments, path).id)
              && CommentTally(store, posts[i], pos) == Click(old(CommentTally(store, posts[i], pos)), d)
      ensures accepted ==> var pos := old(Pos(posts[i].comments, path));
              Flat(posts[i].comments) == old(Flat(posts[i].comments)[pos := Bump(Flat(posts[i].comments)[pos], d.Delta())])
      ensures accepted ==> posts == old(posts[i := posts[i].(comments := AddScore(posts[i].comments, path, d.Delta()))])
      ensures accepted ==> store == old(store)[CommentVoteKey(posts[i].id, old(At(posts[i].comments, path).id)) := d.Name()]
                                              [StorageKey := encode(posts)]
      ensures !accepted ==> posts == old(posts) && store == old(store)
      ensures Ledger(old(store), old(posts)) ==> Ledger(store, posts)
    {
      var post := posts[i];
      var c := At(post.comments, path);
      FlatAt(post.comments, path);
      AddScoreFlat(post.comments, path, d.Delta());
      AddScoreKeepsPaths(post.comments, path, d.Delta(), path);
      if Truthy(GetCommentVote(post.id, c.id)) {
        accepted := false;
        return;
      }
      ghost var store0, posts0 := store, posts;
      posts := posts[i := post.(comments := AddScore(post.comments, path, d.Delta()))];
      SetCommentVote(post.id, c.id, d.Name());
      SavePosts();
      accepted := true;
      KeyKinds(post.id, post.id, c.id, d);
      if Ledger(store0, posts0) {
        LedgerCommentVote(store0, posts0, i, path, d);
        LedgerOtherKey(store0[CommentVoteKey(post.id, c.id) := d.Name()], posts, StorageKey, encode(posts));
      }
    }

    /**
     * The comment form's submit (script.js:325-334): the trimmed text, when not blank, becomes a
     * new top-level comment with score zero at the end of the post's comments, and the posts are
     * saved. Blank text changes nothing.
     */
    method SubmitComment(i: nat, input: string, id: string) returns (added: bool)
      requires i < |posts|
      modifies this`store, this`posts
      ensures added == (Trim(input) != "")
      ensures added ==> posts == old(posts)[i := old(posts[i]).(comments := old(posts[i].comments) + [Comment(id, Trim(input), 0, [])])]
      ensures added ==> store == old(store)[StorageKey := encode(posts)]
      ensures added ==> Flat(posts[i].comments) == old(Flat(posts[i].comments)) + [Entry(id, Trim(input), 0)]
      ensures !added ==> posts == old(posts) && store == old(store)
      ensures Ledger(old(store), old(posts)) && FreshComment(old(store), old(posts[i]), id) ==> Ledger(store, posts)
    {
      var text := Trim(input);
      if text == "" {
        added := false;
        return;
      }
      ghost var store0, posts0 := store, posts;
      var node := Comment(id, text, 0, []);
      var post := posts[i];
      posts := posts[i := post.(comments := post.comments + [node])];
      SavePosts();
      added := true;
      AddCommentFlat(post.comments, node);
      KeyKinds(post.id, post.id, id, Up);
      if Ledger(store0, posts0) && FreshComment(store0, post, id) {
        var es := Flat(post.comments);
        assert es[..|es|] == es && es[|es|..] == [];
        LedgerInsertComment(store0, posts0, i, post.comments + [node], |es|, node);
        LedgerOtherKey(store0, posts, StorageKey, encode(posts));
      }
    }

    /**
     * The reply form's submit (script.js:294-304): the trimmed text, when not blank, becomes a
     * reply with score zero after the last reply of the comment at `path`; in the walk it lands
     * right after that comment's subtree. Blank text changes nothing.
     */
    method SubmitReply(i: nat, path: seq<nat>, input: string, id: string) returns (added: bool)
      requires i < |posts| && ValidPath(posts[i].comments, path)
      modifies this`store, this`posts
      ensures added == (Trim(input) != "")
      ensures added ==> posts == old(posts)[i := old(posts[i]).(comments := AddReply(old(posts[i].comments), path, Comment(id, Trim(input), 0, [])))]
      ensures added ==> store == old(store)[StorageKey := encode(posts)]
      ensures added ==> var e := old(SubtreeEnd(posts[i].comments, path));
              && e <= old(|Flat(posts[i].comments)|)
              && Flat(posts[i].comments) == old(Flat(posts[i].comments)[..e]) + [Entry(id, Trim(input), 0)] + old(Flat(posts[i].comments)[e..])
      ensures !added ==> posts == old(posts) && store == old(store)
      ensures Ledger(old(store), old(posts)) && FreshComment(old(store), old(posts[i]), id) ==> Ledger(store, posts)
    {
      var text := Trim(input);
      if text == "" {
        added := false;
        return;
      }
      ghost var store0, posts0 := store, posts;
      var node := Comment(id, text, 0, []);
      var post := posts[i];
      posts := posts[i := post.(comments := AddReply(post.comments, path, node))];
      SavePosts();
      added := true;
      AddReplyFlat(post.comments, path, node);
      KeyKinds(post.id, post.id, id, Up);
      if Ledger(store0, posts0) && FreshComment(store0, post, id) {
        ReplyLedger(store0, posts0, i, path, node);
        LedgerOtherKey(store0, posts, StorageKey, encode(posts));
      }
    }

    /**
     * The new-post form's submit (script.js:343-355): when the form is accepted, the post built
     * from the trimmed fields goes at the end of the list and the list is saved, so that the
     * next `renderAll` draws it first unless a search it does not match is set; otherwise
     * nothing changes.
     */
    method SubmitPost(title: string, description: string, tags: string, id: string) returns (added: bool)
      modifies this`store, this`posts
      ensures added == PostFormAccepts(title, description)
      ensures added ==> posts == old(posts) + [PostFromForm(title, description, tags, id).value]
      ensures added ==> store == old(store)[StorageKey := encode(posts)]
      ensures added && (currentSearch == "" || MatchesPost(posts[|posts| - 1], currentSearch)) ==>
              Shown(posts, currentSearch)[0] == posts[|posts| - 1]
      ensures !added ==> posts == old(posts) && store == old(store)
      ensures Ledger(old(store), old(posts)) && FreshPost(old(store), old(posts), id) ==> Ledger(store, posts)
    {
      var made := PostFromForm(title, description, tags, id);
      if made.None? {
        added := false;
        return;
      }
      ghost var store0, posts0 := store, posts;
      var post := made.value;
      posts := posts + [post];
      SavePosts();
      added := true;
      if currentSearch == "" || MatchesPost(post, currentSearch) {
        NewestShownFirst(posts0, post, currentSearch);
      }
      if Ledger(store0, posts0) && FreshPost(store0, posts0, id) {
        AddPostLedger(store0, posts0, post, encode(posts));
      }
    }

    /** The search box, once its debounce delay has passed (script.js:366): the trimmed input. */
    method UpdateSearch(input: string)
      modifies this`currentSearch
      ensures currentSearch == Trim(input)
    {
      currentSearch := Trim(input);
    }

    /** The posts `renderAll` draws (script.js:57-59), in the order it draws them. */
    method RenderAll() returns (shown: seq<Post>)
      ensures shown == Shown(posts, currentSearch)
    {
      shown := Shown(posts, currentSearch);
    }
  }
}
