/**
 * What the board keeps in `localStorage` (script.js:4-37): one flag per post vote
 * (`vote_<postId>`), one per comment vote (`vote_<postId>_<commentId>`), an action marker
 * per post vote (`upvote_<id>` / `downvote_<id>`) and the saved posts (`anony_posts_v1`).
 * `Ledger` is the agreement between the flags and the scores that every handler keeps.
 */
module Votes {
  import opened Wrappers
  import opened Comments
  import opened Posts

  const StorageKey: string := "anony_posts_v1"

  /** `${action}_${discussionId}` */
  function ActionKey(id: string, action: string): string
  {
    action + "_" + id
  }

  /** `vote_${discussionId}` */
  function VoteKey(id: string): string
  {
    "vote_" + id
  }

  /** `vote_${postId}_${commentId}` */
  function CommentVoteKey(postId: string, commentId: string): string
  {
    "vote_" + postId + "_" + commentId
  }

  /** `localStorage.getItem(key)`: the stored string, or `null`. */
  function Lookup(store: map<string, string>, key: string): Option<string>
  {
    if key in store then Some(store[key]) else None
  }

  /** A `getItem` result used as a condition: present and not the empty string. */
  predicate Truthy(v: Option<string>)
  {
    v.Some? && v.value != ""
  }

  /** The two vote buttons. */
  datatype Direction = Up | Down
  {
    /** What `setVote` stores. */
    function Name(): string
    {
      if Up? then "up" else "down"
    }

    /** What the click adds to the score. */
    function Delta(): int
    {
      if Up? then 1 else -1
    }

    /** The action marker a post vote sets. */
    function Action(): string
    {
      if Up? then "upvote" else "downvote"
    }
  }

  /** An id that cannot run into the separator of a composite key; the board's ids are digit strings. */
  predicate KeySafe(id: string)
  {
    '_' !in id
  }

  /** The keys the vote flags live under. */
  predicate IsVoteKey(k: string)
  {
    |k| >= 5 && k[..5] == "vote_"
  }

  lemma {:induction false} PrefixCancel(p: string, a: string, b: string)
    requires p + a == p + b
    ensures a == b
  {
    assert a == (p + a)[|p|..];
    assert b == (p + b)[|p|..];
  }

  /** Both kinds of vote key are vote keys; the action markers and the posts key are not. */
  lemma KeyKinds(id: string, postId: string, commentId: string, d: Direction)
    ensures IsVoteKey(VoteKey(id)) && IsVoteKey(CommentVoteKey(postId, commentId))
    ensures !IsVoteKey(ActionKey(id, d.Action())) && !IsVoteKey(StorageKey)
  {
    assert ActionKey(id, d.Action())[0] != 'v';
    assert CommentVoteKey(postId, commentId) == "vote_" + (postId + "_" + commentId);
  }

  /** Different posts have different vote flags. */
  lemma VoteKeyInjective(a: string, b: string)
    ensures VoteKey(a) == VoteKey(b) <==> a == b
  {
    if VoteKey(a) == VoteKey(b) {
      PrefixCancel("vote_", a, b);
    }
  }

  /** In `p + "_" + c` with an underscore-free `p`, the first underscore is at `|p|`. */
  lemma FirstUnderscore(p: string, c: string)
    requires KeySafe(p)
    ensures (p + "_" + c)[|p|] == '_'
    ensures forall k :: 0 <= k < |p| ==> (p + "_" + c)[k] != '_'
  {
    assert forall k :: 0 <= k < |p| ==> (p + "_" + c)[k] == p[k];
  }

  /** `p + "_" + c` determines `p` and `c` when `p` holds no underscore. */
  lemma {:induction false} SplitAtUnderscore(p1: string, c1: string, p2: string, c2: string)
    requires KeySafe(p1) && KeySafe(p2)
    requires p1 + "_" + c1 == p2 + "_" + c2
    ensures p1 == p2 && c1 == c2
  {
    var s := p1 + "_" + c1;
    FirstUnderscore(p1, c1);
    FirstUnderscore(p2, c2);
    assert |p1| == |p2|;
    assert p1 == s[..|p1|] == p2;
    assert c1 == s[|p1| + 1..] == c2;
  }

  /** With underscore-free post ids, each comment flag belongs to one post and one comment. */
  lemma CommentVoteKeyInjective(p1: string, c1: string, p2: string, c2: string)
    requires KeySafe(p1) && KeySafe(p2)
    ensures CommentVoteKey(p1, c1) == CommentVoteKey(p2, c2) <==> p1 == p2 && c1 == c2
  {
    if CommentVoteKey(p1, c1) == CommentVoteKey(p2, c2) {
      assert CommentVoteKey(p1, c1) == "vote_" + (p1 + "_" + c1);
      assert CommentVoteKey(p2, c2) == "vote_" + (p2 + "_" + c2);
      PrefixCancel("vote_", p1 + "_" + c1, p2 + "_" + c2);
      SplitAtUnderscore(p1, c1, p2, c2);
    }
  }

  /** With an underscore-free post id, a post's flag is never a comment's flag. */
  lemma PostKeyNotCommentKey(id: string, postId: string, commentId: string)
    requires KeySafe(id)
    ensures VoteKey(id) != CommentVoteKey(postId, commentId)
  {
    if VoteKey(id) == CommentVoteKey(postId, commentId) {
      assert CommentVoteKey(postId, commentId) == "vote_" + (postId + "_" + commentId);
      PrefixCancel("vote_", id, postId + "_" + commentId);
    }
  }

  /** What one pair of vote buttons looks at and changes: the stored flag and the score. */
  datatype Tally = Tally(flag: Option<string>, score: int)

  /**
   * One click on a vote button (script.js:178-211, 258-282): refused when a vote is already
   * recorded, otherwise the score moves by one and the direction is recorded.
   */
  function Click(t: Tally, d: Direction): Tally
  {
    if Truthy(t.flag) then t else Tally(Some(d.Name()), t.score + d.Delta())
  }

  /** A run of clicks on the same pair of buttons. */
  function Clicks(t: Tally, ds: seq<Direction>): Tally
    decreases |ds|
  {
    if ds == [] then t else Clicks(Click(t, ds[0]), ds[1..])
  }

  /** Once a vote is recorded, no click changes anything. */
  lemma {:induction false} ClicksAfterVote(t: Tally, ds: seq<Direction>)
    requires Truthy(t.flag)
    ensures Clicks(t, ds) == t
    decreases |ds|
  {
    if ds != [] {
      ClicksAfterVote(t, ds[1..]);
    }
  }

  /** Only the first click of a run counts: one vote per user, per post or comment. */
  lemma FirstClickWins(t: Tally, ds: seq<Direction>)
    requires !Truthy(t.flag) && ds != []
    ensures Clicks(t, ds) == Tally(Some(ds[0].Name()), t.score + ds[0].Delta())
  {
    ClicksAfterVote(Click(t, ds[0]), ds[1..]);
  }

  /** The flag and the score agree: no flag and score zero, or the direction voted and its delta. */
  predicate Consistent(t: Tally)
  {
    || (t.flag == None && t.score == 0)
    || (t.flag == Some("up") && t.score == 1)
    || (t.flag == Some("down") && t.score == -1)
  }

  /** Clicking keeps flag and score in agreement, so a score never leaves -1..1. */
  lemma {:induction false} ClicksKeepConsistent(t: Tally, ds: seq<Direction>)
    requires Consistent(t)
    ensures Consistent(Clicks(t, ds)) && -1 <= Clicks(t, ds).score <= 1
    decreases |ds|
  {
    if ds != [] {
      ClicksKeepConsistent(Click(t, ds[0]), ds[1..]);
    }
  }

  /** No two entries of a comment walk share an id. */
  predicate DistinctIds(es: seq<Entry>)
  {
    forall a, b :: 0 <= a < b < |es| ==> es[a].id != es[b].id
  }

  /** The tally of the `k`-th comment of the walk of `p`. */
  function CommentTally(store: map<string, string>, p: Post, k: nat): Tally
    requires k < |Flat(p.comments)|
  {
    Tally(Lookup(store, CommentVoteKey(p.id, Flat(p.comments)[k].id)), Flat(p.comments)[k].score)
  }

  /** One post's flags agree with its score and with the scores of its comments. */
  predicate PostLedger(store: map<string, string>, p: Post)
  {
    && KeySafe(p.id)
    && Consistent(Tally(Lookup(store, VoteKey(p.id)), p.score))
    && DistinctIds(Flat(p.comments))
    && forall k :: 0 <= k < |Flat(p.comments)| ==> Consistent(CommentTally(store, p, k))
  }

  /** The whole board: post ids distinct and every post's flags in agreement. */
  predicate Ledger(store: map<string, string>, posts: seq<Post>)
  {
    && (forall i :: 0 <= i < |posts| ==> PostLedger(store, posts[i]))
    && (forall i, j :: 0 <= i < j < |posts| ==> posts[i].id != posts[j].id)
  }

  /** Writing a key that is not a vote key (an action marker, the saved posts) keeps the ledger. */
  lemma LedgerOtherKey(store: map<string, string>, posts: seq<Post>, key: string, v: string)
    requires Ledger(store, posts) && !IsVoteKey(key)
    ensures Ledger(store[key := v], posts)
  {
    var s := store[key := v];
    forall i | 0 <= i < |posts|
      ensures PostLedger(s, posts[i])
    {
      var p := posts[i];
      KeyKinds(p.id, p.id, "", Up);
      forall k | 0 <= k < |Flat(p.comments)|
        ensures CommentTally(s, p, k) == CommentTally(store, p, k)
      {
        KeyKinds(p.id, p.id, Flat(p.comments)[k].id, Up);
      }
    }
  }

  /** Replacing one post by another whose flags agree keeps the ledger, if its id stays. */
  lemma LedgerReplace(store: map<string, string>, posts: seq<Post>, i: nat, p: Post)
    requires Ledger(store, posts) && i < |posts|
    requires p.id == posts[i].id && PostLedger(store, p)
    ensures Ledger(store, posts[i := p])
  {
  }

  /** An accepted vote on post `i` (script.js:185-187 and 203-205) keeps the ledger. */
  lemma LedgerPostVote(store: map<string, string>, posts: seq<Post>, i: nat, d: Direction)
    requires Ledger(store, posts) && i < |posts|
    requires !Truthy(Lookup(store, VoteKey(posts[i].id)))
    ensures Ledger(store[VoteKey(posts[i].id) := d.Name()],
                   posts[i := posts[i].(score := posts[i].score + d.Delta())])
  {
    var id := posts[i].id;
    var s := store[VoteKey(id) := d.Name()];
    var ps := posts[i := posts[i].(score := posts[i].score + d.Delta())];
    forall j | 0 <= j < |ps|
      ensures PostLedger(s, ps[j])
    {
      var p := ps[j];
      if j != i {
        assert p.id != id;
        VoteKeyInjective(p.id, id);
      }
      forall k | 0 <= k < |Flat(p.comments)|
        ensures CommentTally(s, p, k) == CommentTally(store, posts[j], k)
      {
        PostKeyNotCommentKey(id, p.id, Flat(p.comments)[k].id);
      }
    }
  }

  /** An accepted vote on the comment at `path` of post `i` (script.js:263-265, 276-278) keeps the ledger. */
  lemma LedgerCommentVote(store: map<string, string>, posts: seq<Post>, i: nat, path: seq<nat>, d: Direction)
    requires Ledger(store, posts) && i < |posts| && ValidPath(posts[i].comments, path)
    requires !Truthy(Lookup(store, CommentVoteKey(posts[i].id, At(posts[i].comments, path).id)))
    ensures Ledger(store[CommentVoteKey(posts[i].id, At(posts[i].comments, path).id) := d.Name()],
                   posts[i := posts[i].(comments := AddScore(posts[i].comments, path, d.Delta()))])
  {
    var p := posts[i];
    var key := CommentVoteKey(p.id, At(p.comments, path).id);
    var p' := p.(comments := AddScore(p.comments, path, d.Delta()));
    CommentVoteOwnPost(store, p, path, d);
    CommentVoteOtherPosts(store, posts, i, At(p.comments, path).id, d.Name());
    var s, ps := store[key := d.Name()], posts[i := p'];
    forall j | 0 <= j < |ps|
      ensures PostLedger(s, ps[j])
    {
      if j != i {
        assert ps[j] == posts[j];
      }
    }
  }

  /** The vote's own post keeps its flags in agreement: only the voted comment's tally moves. */
  lemma CommentVoteOwnPost(store: map<string, string>, p: Post, path: seq<nat>, d: Direction)
    requires PostLedger(store, p) && ValidPath(p.comments, path)
    requires !Truthy(Lookup(store, CommentVoteKey(p.id, At(p.comments, path).id)))
    ensures PostLedger(store[CommentVoteKey(p.id, At(p.comments, path).id) := d.Name()],
                       p.(comments := AddScore(p.comments, path, d.Delta())))
  {
    var cid := At(p.comments, path).id;
    var s := store[CommentVoteKey(p.id, cid) := d.Name()];
    var p' := p.(comments := AddScore(p.comments, path, d.Delta()));
    var pos := Pos(p.comments, path);
    AddScoreFlat(p.comments, path, d.Delta());
    FlatAt(p.comments, path);
    var es, es' := Flat(p.comments), Flat(p'.comments);
    assert |es'| == |es| && forall k :: 0 <= k < |es| ==> es'[k].id == es[k].id;
    PostKeyNotCommentKey(p.id, p.id, cid);
    forall k | 0 <= k < |es'|
      ensures Consistent(CommentTally(s, p', k))
    {
      if k == pos {
        assert Consistent(CommentTally(store, p, k));
      } else {
        CommentVoteKeyInjective(p.id, es[k].id, p.id, cid);
        assert CommentTally(s, p', k) == CommentTally(store, p, k);
      }
    }
  }

  /** A comment vote key of post `i` is no key of any other post, so their flags stay as they were. */
  lemma CommentVoteOtherPosts(store: map<string, string>, posts: seq<Post>, i: nat, cid: string, v: string)
    requires Ledger(store, posts) && i < |posts|
    ensures forall j :: 0 <= j < |posts| && j != i ==>
              PostLedger(store[CommentVoteKey(posts[i].id, cid) := v], posts[j])
  {
    var pid := posts[i].id;
    var s := store[CommentVoteKey(pid, cid) := v];
    forall j | 0 <= j < |posts| && j != i
      ensures PostLedger(s, posts[j])
    {
      var q := posts[j];
      assert q.id != pid;
      PostKeyNotCommentKey(q.id, pid, cid);
      forall k | 0 <= k < |Flat(q.comments)|
        ensures CommentTally(s, q, k) == CommentTally(store, q, k)
      {
        CommentVoteKeyInjective(q.id, Flat(q.comments)[k].id, pid, cid);
      }
    }
  }

  /** An entry whose id is new, inserted anywhere, keeps the ids distinct. */
  lemma InsertFresh(es: seq<Entry>, e: nat, n: Entry)
    requires DistinctIds(es) && e <= |es|
    requires forall k :: 0 <= k < |es| ==> es[k].id != n.id
    ensures var es' := es[..e] + [n] + es[e..];
            && DistinctIds(es')
            && forall k :: 0 <= k < |es'| ==> es'[k] == if k < e then es[k] else if k == e then n else es[k - 1]
  {
  }

  /**
   * A new comment or reply (script.js:299-301, 329-330) keeps the ledger when its id is new in
   * its post and nothing is recorded yet under its flag: it enters the walk with score zero.
   */
  lemma LedgerInsertComment(store: map<string, string>, posts: seq<Post>, i: nat,
                            cs: seq<Comment>, e: nat, node: Comment)
    requires Ledger(store, posts) && i < |posts|
    requires node.score == 0 && CommentVoteKey(posts[i].id, node.id) !in store
    requires e <= |Flat(posts[i].comments)|
    requires forall k :: 0 <= k < |Flat(posts[i].comments)| ==> Flat(posts[i].comments)[k].id != node.id
    requires Flat(cs) == Flat(posts[i].comments)[..e] + [EntryOf(node)] + Flat(posts[i].comments)[e..]
    ensures Ledger(store, posts[i := posts[i].(comments := cs)])
  {
    var p := posts[i];
    var p' := p.(comments := cs);
    InsertFresh(Flat(p.comments), e, EntryOf(node));
    forall k | 0 <= k < |Flat(cs)|
      ensures Consistent(CommentTally(store, p', k))
    {
      if k < e {
        assert CommentTally(store, p', k) == CommentTally(store, p, k);
      } else if k > e {
        assert CommentTally(store, p', k) == CommentTally(store, p, k - 1);
      }
    }
    LedgerReplace(store, posts, i, p');
  }

  /** A new post (script.js:349-350) keeps the ledger when its id is new, underscore-free and unflagged. */
  lemma LedgerAddPost(store: map<string, string>, posts: seq<Post>, p: Post)
    requires Ledger(store, posts)
    requires KeySafe(p.id) && VoteKey(p.id) !in store && p.score == 0 && p.comments == []
    requires forall i :: 0 <= i < |posts| ==> posts[i].id != p.id
    ensures Ledger(store, posts + [p])
  {
    assert Flat(p.comments) == [];
  }
}
