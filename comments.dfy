/**
 * The comment tree (script.js:216-334): every comment owns an ordered list of replies.
 * A node is addressed by its path of indices from the top-level list; the pre-order walk
 * (`Flat`) is the order in which the board shows, counts and searches comments.
 */
module Comments {

  /** `{ id, text, score, replies }`; a top-level comment that has no score yet counts as 0. */
  datatype Comment = Comment(id: string, text: string, score: int, replies: seq<Comment>)

  /** What one node carries apart from its replies. */
  datatype Entry = Entry(id: string, text: string, score: int)

  function EntryOf(c: Comment): Entry
  {
    Entry(c.id, c.text, c.score)
  }

  /** The pre-order walk: each comment, then its replies, then its later siblings. */
  function Flat(cs: seq<Comment>): seq<Entry>
  {
    if cs == [] then [] else [EntryOf(cs[0])] + Flat(cs[0].replies) + Flat(cs[1..])
  }

  lemma {:induction false} FlatConcat(a: seq<Comment>, b: seq<Comment>)
    ensures Flat(a + b) == Flat(a) + Flat(b)
  {
    if a == [] {
      assert a + b == b;
    } else {
      assert (a + b)[0] == a[0];
      assert (a + b)[1..] == a[1..] + b;
      FlatConcat(a[1..], b);
    }
  }

  lemma FlatOne(c: Comment)
    ensures Flat([c]) == [EntryOf(c)] + Flat(c.replies)
  {
    assert [c][1..] == [];
  }

  /** The walk of a list with one node replaced. */
  lemma FlatUpdate(cs: seq<Comment>, h: nat, x: Comment)
    requires h < |cs|
    ensures Flat(cs[h := x]) == Flat(cs[..h]) + [EntryOf(x)] + Flat(x.replies) + Flat(cs[h + 1..])
    ensures Flat(cs) == Flat(cs[..h]) + [EntryOf(cs[h])] + Flat(cs[h].replies) + Flat(cs[h + 1..])
  {
    FlatReplace(cs, h, x);
    FlatReplace(cs, h, cs[h]);
    assert cs[h := cs[h]] == cs;
  }

  lemma FlatReplace(cs: seq<Comment>, h: nat, x: Comment)
    requires h < |cs|
    ensures Flat(cs[h := x]) == Flat(cs[..h]) + [EntryOf(x)] + Flat(x.replies) + Flat(cs[h + 1..])
  {
    var l, r := cs[..h], cs[h + 1..];
    assert cs[h := x] == l + [x] + r;
    FlatConcat(l + [x], r);
    FlatConcat(l, [x]);
    FlatOne(x);
  }

  /** The same, with the replaced node's own walk kept together. */
  lemma FlatAround(cs: seq<Comment>, h: nat, x: Comment)
    requires h < |cs|
    ensures Flat(cs[h := x]) == Flat(cs[..h]) + ([EntryOf(x)] + Flat(x.replies)) + Flat(cs[h + 1..])
  {
    FlatUpdate(cs, h, x);
  }

  /**
   * `countComments(items)` (script.js:316-323): one for each comment plus, recursively,
   * its replies. The result is the length of the pre-order walk: every node at every
   * depth is counted exactly once.
   */
  method CountComments(items: seq<Comment>) returns (count: nat)
    ensures count == |Flat(items)|
  {
    count := 0;
    var i := 0;
    while i < |items|
      invariant 0 <= i <= |items|
      invariant count == |Flat(items[..i])|
    {
      var c := items[i];
      count := count + 1;
      if |c.replies| > 0 {
        var sub := CountComments(c.replies);
        count := count + sub;
      }
      assert items[..i + 1] == items[..i] + [c];
      FlatConcat(items[..i], [c]);
      FlatOne(c);
      i := i + 1;
    }
    assert items[..i] == items;
  }

  /** A root comment with two replies, one of which has a reply of its own: four comments. */
  lemma CountExample(a: string, b: string, c: string, d: string)
    ensures |Flat([Comment(a, "", 0, [Comment(b, "", 0, [Comment(c, "", 0, [])]),
                                      Comment(d, "", 0, [])])])| == 4
  {
    var leaf := Comment(c, "", 0, []);
    var mid := Comment(b, "", 0, [leaf]);
    var other := Comment(d, "", 0, []);
    FlatOne(leaf);
    FlatOne(other);
    FlatConcat([mid], [other]);
    FlatOne(mid);
    FlatOne(Comment(a, "", 0, [mid, other]));
    assert [mid, other] == [mid] + [other];
  }

  /** Inserting into the middle part of a three-part sequence. */
  lemma InsertMiddle<T>(A: seq<T>, B: seq<T>, C: seq<T>, N: seq<T>, e: nat)
    requires e <= |B|
    ensures |A| + e <= |A + B + C|
    ensures A + (B[..e] + N + B[e..]) + C == (A + B + C)[..|A| + e] + N + (A + B + C)[|A| + e..]
  {
    assert (A + B + C)[..|A| + e] == A + B[..e];
    assert (A + B + C)[|A| + e..] == B[e..] + C;
  }

  /** Inserting after the first element of a sequence. */
  lemma ConsInsert<T>(x: T, D: seq<T>, N: seq<T>, e: nat, e1: nat)
    requires e <= |D| && e1 == 1 + e
    ensures [x] + (D[..e] + N + D[e..]) == ([x] + D)[..e1] + N + ([x] + D)[e1..]
  {
    assert ([x] + D)[..e1] == [x] + D[..e];
    assert ([x] + D)[e1..] == D[e..];
  }

  /** A sequence made of three parts, whose middle part received an insertion. */
  lemma InsertGlue<T>(F: seq<T>, G: seq<T>, A: seq<T>, B: seq<T>, C: seq<T>, B': seq<T>, N: seq<T>, i: nat, e: nat)
    requires F == A + B + C && G == A + B' + C
    requires i <= |B| && B' == B[..i] + N + B[i..] && e == |A| + i
    ensures e <= |F| && G == F[..e] + N + F[e..]
  {
    InsertMiddle(A, B, C, N, i);
  }

  /** Updating one element of the middle part of a three-part sequence. */
  lemma UpdateMiddle<T>(A: seq<T>, B: seq<T>, C: seq<T>, p: nat, x: T)
    requires p < |B|
    ensures (A + B + C)[|A| + p] == B[p]
    ensures (A + B + C)[|A| + p := x] == A + B[p := x] + C
  {
  }

  /** `path` leads to a node: its first index picks a comment, the rest a reply below it. */
  predicate ValidPath(cs: seq<Comment>, path: seq<nat>)
  {
    && |path| > 0
    && path[0] < |cs|
    && (|path| == 1 || ValidPath(cs[path[0]].replies, path[1..]))
  }

  /** The node at `path`. */
  function At(cs: seq<Comment>, path: seq<nat>): Comment
    requires ValidPath(cs, path)
  {
    if |path| == 1 then cs[path[0]] else At(cs[path[0]].replies, path[1..])
  }

  /** Where the node at `path` stands in the pre-order walk. */
  function Pos(cs: seq<Comment>, path: seq<nat>): nat
    requires ValidPath(cs, path)
  {
    |Flat(cs[..path[0]])| + (if |path| == 1 then 0 else 1 + Pos(cs[path[0]].replies, path[1..]))
  }

  /** The node at `path` is entry number `Pos(cs, path)` of the walk, followed by its own replies. */
  lemma {:induction false} FlatAt(cs: seq<Comment>, path: seq<nat>)
    requires ValidPath(cs, path)
    ensures Pos(cs, path) + 1 + |Flat(At(cs, path).replies)| <= |Flat(cs)|
    ensures Flat(cs)[Pos(cs, path)] == EntryOf(At(cs, path))
  {
    var h := path[0];
    FlatUpdate(cs, h, cs[h]);
    if |path| > 1 {
      FlatAt(cs[h].replies, path[1..]);
    }
  }

  /** Where the subtree of the node at `path` ends in the walk: just after its last descendant. */
  function SubtreeEnd(cs: seq<Comment>, path: seq<nat>): nat
    requires ValidPath(cs, path)
  {
    Pos(cs, path) + 1 + |Flat(At(cs, path).replies)|
  }

  /**
   * The reply form's submit (script.js:294-304): `node` is pushed at the end of the replies
   * of the comment at `path`.
   */
  function AddReply(cs: seq<Comment>, path: seq<nat>, node: Comment): seq<Comment>
    requires ValidPath(cs, path)
  {
    var h := path[0];
    var c := cs[h];
    cs[h := c.(replies := if |path| == 1 then c.replies + [node]
                          else AddReply(c.replies, path[1..], node))]
  }

  /**
   * Adding a reply inserts exactly one entry into the walk, right after the last reply of its
   * parent (at `SubtreeEnd`); every other entry keeps its
   * id, text and score, in the same order.
   */
  lemma {:induction false} AddReplyFlat(cs: seq<Comment>, path: seq<nat>, node: Comment)
    requires ValidPath(cs, path) && node.replies == []
    ensures SubtreeEnd(cs, path) <= |Flat(cs)|
    ensures Flat(AddReply(cs, path, node))
         == Flat(cs)[..SubtreeEnd(cs, path)] + [EntryOf(node)] + Flat(cs)[SubtreeEnd(cs, path)..]
    decreases |path|, 1
  {
    var h := path[0];
    var c := cs[h];
    var r := AddReply(cs, path, node);
    var A := Flat(cs[..h]);
    var B := [EntryOf(c)] + Flat(c.replies);
    var C := Flat(cs[h + 1..]);
    AddReplySplit(cs, path, node);
    var e' := AddReplyNodeFlat(cs, path, node);
    SubtreeEndSplit(cs, path);
    InsertGlue(Flat(cs), Flat(r), A, B, C, [EntryOf(r[h])] + Flat(r[h].replies), [EntryOf(node)], e',
               SubtreeEnd(cs, path));
  }

  /** Adding a reply changes only the walk of the top-level node that `path` goes through. */
  lemma AddReplySplit(cs: seq<Comment>, path: seq<nat>, node: Comment)
    requires ValidPath(cs, path)
    ensures var h, r := path[0], AddReply(cs, path, node);
            && Flat(cs) == Flat(cs[..h]) + ([EntryOf(cs[h])] + Flat(cs[h].replies)) + Flat(cs[h + 1..])
            && Flat(r) == Flat(cs[..h]) + ([EntryOf(r[h])] + Flat(r[h].replies)) + Flat(cs[h + 1..])
  {
    var h, r := path[0], AddReply(cs, path, node);
    FlatAround(cs, h, r[h]);
    FlatAround(cs, h, cs[h]);
    assert r == cs[h := r[h]] && cs == cs[h := cs[h]];
  }

  /** Where the subtree of the node at `path` ends in the walk, one level at a time. */
  lemma SubtreeEndSplit(cs: seq<Comment>, path: seq<nat>)
    requires ValidPath(cs, path)
    ensures var c := cs[path[0]];
            SubtreeEnd(cs, path) ==
            |Flat(cs[..path[0]])| +
            (if |path| == 1 then |[EntryOf(c)] + Flat(c.replies)|
             else 1 + SubtreeEnd(c.replies, path[1..]))
  {
  }

  /**
   * The same for the walk of the top-level node that `path` goes through: the reply lands
   * after the subtree of its parent, counted from that top-level node.
   */
  lemma {:induction false} AddReplyNodeFlat(cs: seq<Comment>, path: seq<nat>, node: Comment) returns (e': nat)
    requires ValidPath(cs, path) && node.replies == []
    ensures var c := cs[path[0]];
            var B := [EntryOf(c)] + Flat(c.replies);
            var n := AddReply(cs, path, node)[path[0]];
            && e' == (if |path| == 1 then |B|
                      else 1 + SubtreeEnd(c.replies, path[1..]))
            && e' <= |B|
            && [EntryOf(n)] + Flat(n.replies) == B[..e'] + [EntryOf(node)] + B[e'..]
    decreases |path|, 0
  {
    var c := cs[path[0]];
    var n := AddReply(cs, path, node)[path[0]];
    var D := Flat(c.replies);
    var d: nat;
    if |path| == 1 {
      d := |D|;
      assert n == c.(replies := c.replies + [node]);
      AddCommentFlat(c.replies, node);
      assert D[..d] == D && D[d..] == [];
    } else {
      assert n == c.(replies := AddReply(c.replies, path[1..], node));
      d := SubtreeEnd(c.replies, path[1..]);
      AddReplyFlat(c.replies, path[1..], node);
    }
    e' := 1 + d;
    ConsInsert(EntryOf(c), D, [EntryOf(node)], d, e');
  }

  /** A path that starts inside `xs` leads to the same node once `ys` is appended. */
  lemma PathInPrefix(xs: seq<Comment>, ys: seq<Comment>, q: seq<nat>)
    requires |q| > 0 && q[0] < |xs|
    ensures ValidPath(xs + ys, q) == ValidPath(xs, q)
    ensures ValidPath(xs, q) ==> At(xs + ys, q) == At(xs, q)
  {
    assert (xs + ys)[q[0]] == xs[q[0]];
  }

  /**
   * The reply is pushed at the end of the replies of the node at `path` (script.js:299-300):
   * that node keeps its id, text and score, and the reply is reachable one level below it,
   * at the index that was one past its last reply.
   */
  lemma {:induction false} AddReplyTarget(cs: seq<Comment>, path: seq<nat>, node: Comment)
    requires ValidPath(cs, path)
    ensures var r, n := AddReply(cs, path, node), |At(cs, path).replies|;
            && ValidPath(r, path)
            && At(r, path).replies == At(cs, path).replies + [node]
            && EntryOf(At(r, path)) == EntryOf(At(cs, path))
            && ValidPath(r, path + [n])
            && At(r, path + [n]) == node
  {
    var h, c, r := path[0], cs[path[0]], AddReply(cs, path, node);
    var n := |At(cs, path).replies|;
    assert (path + [n])[0] == h;
    if |path| == 1 {
      assert (path + [n])[1..] == [n];
    } else {
      AddReplyTarget(c.replies, path[1..], node);
      assert (path + [n])[1..] == path[1..] + [n];
    }
  }

  /** `above` is `path` itself or one of the nodes `path` goes through. */
  predicate Above(above: seq<nat>, path: seq<nat>)
  {
    |above| <= |path| && above == path[..|above|]
  }

  /**
   * Every node that was there before is still at the same path with the same id, text and
   * score; a node whose subtree does not hold the parent of the reply is left entirely as it was.
   */
  lemma {:induction false} AddReplyKeeps(cs: seq<Comment>, path: seq<nat>, node: Comment, other: seq<nat>)
    requires ValidPath(cs, path) && ValidPath(cs, other)
    ensures var r := AddReply(cs, path, node);
            && ValidPath(r, other)
            && EntryOf(At(r, other)) == EntryOf(At(cs, other))
            && (!Above(other, path) ==> At(r, other) == At(cs, other))
  {
    var h, c, r := path[0], cs[path[0]], AddReply(cs, path, node);
    var o := other[0];
    if o == h && |other| > 1 {
      if |path| == 1 {
        PathInPrefix(c.replies, [node], other[1..]);
      } else {
        AddReplyKeeps(c.replies, path[1..], node, other[1..]);
        if Above(other[1..], path[1..]) {
          assert other == [o] + other[1..] && path[..|other|] == [h] + path[1..][..|other| - 1];
        }
      }
    } else if o == h {
      assert Above(other, path) by {
        assert path[..1] == [h];
      }
    }
  }

  /** With a reply that has no replies of its own, the new path is the only new one. */
  lemma {:induction false} AddReplyNewPaths(cs: seq<Comment>, path: seq<nat>, node: Comment, q: seq<nat>)
    requires ValidPath(cs, path) && node.replies == []
    ensures ValidPath(AddReply(cs, path, node), q)
        <==> ValidPath(cs, q) || q == path + [|At(cs, path).replies|]
  {
    var h, c, r := path[0], cs[path[0]], AddReply(cs, path, node);
    var n := |At(cs, path).replies|;
    AddReplyTarget(cs, path, node);
    if ValidPath(cs, q) {
      AddReplyKeeps(cs, path, node, q);
    } else if ValidPath(r, q) && |q| > 1 && q[0] == h {
      if |path| == 1 {
        if q[1] < |c.replies| {
          PathInPrefix(c.replies, [node], q[1..]);
        } else {
          var t := q[1..];
          assert r[h].replies == c.replies + [node];
          assert ValidPath(r[h].replies, t);
          assert t[0] == q[1] && r[h].replies[t[0]] == node;
          assert !ValidPath(node.replies, t[1..]);
          assert |q| == 2;
          assert q == path + [n];
        }
      } else {
        AddReplyNewPaths(c.replies, path[1..], node, q[1..]);
        assert q == [h] + q[1..] && path == [h] + path[1..];
      }
    }
  }

  /** The comment form's submit (script.js:325-334): a top-level comment goes at the end. */
  lemma AddCommentFlat(cs: seq<Comment>, node: Comment)
    requires node.replies == []
    ensures Flat(cs + [node]) == Flat(cs) + [EntryOf(node)]
  {
    FlatConcat(cs, [node]);
    FlatOne(node);
  }

  /** Each accepted comment or reply raises `countComments` by exactly one. */
  lemma AppendCountsOne(cs: seq<Comment>, path: seq<nat>, node: Comment)
    requires node.replies == []
    ensures |Flat(cs + [node])| == |Flat(cs)| + 1
    ensures ValidPath(cs, path) ==> |Flat(AddReply(cs, path, node))| == |Flat(cs)| + 1
  {
    AddCommentFlat(cs, node);
    if ValidPath(cs, path) {
      AddReplyFlat(cs, path, node);
    }
  }

  /** A vote on the comment at `path` (script.js:263, 276): its score moves by `delta`. */
  function AddScore(cs: seq<Comment>, path: seq<nat>, delta: int): seq<Comment>
    requires ValidPath(cs, path)
  {
    var h := path[0];
    var c := cs[h];
    cs[h := if |path| == 1 then c.(score := c.score + delta)
            else c.(replies := AddScore(c.replies, path[1..], delta))]
  }

  /** An entry with its score moved by `delta`. */
  function Bump(e: Entry, delta: int): Entry
  {
    e.(score := e.score + delta)
  }

  /**
   * A score change touches exactly one entry of the walk, the one for the node at `path`,
   * and leaves its id and text alone; the tree keeps its shape, so the same paths stay valid.
   */
  lemma {:induction false} AddScoreFlat(cs: seq<Comment>, path: seq<nat>, delta: int)
    requires ValidPath(cs, path)
    ensures var p := Pos(cs, path);
            p < |Flat(cs)| && Flat(AddScore(cs, path, delta)) == Flat(cs)[p := Bump(Flat(cs)[p], delta)]
    decreases |path|, 1
  {
    var h := path[0];
    var r := AddScore(cs, path, delta);
    var A := Flat(cs[..h]);
    var B := [EntryOf(cs[h])] + Flat(cs[h].replies);
    var C := Flat(cs[h + 1..]);
    AddScoreSplit(cs, path, delta);
    var p' := AddScoreNodeFlat(cs, path, delta);
    BumpGlue(Flat(cs), Flat(r), A, B, C, [EntryOf(r[h])] + Flat(r[h].replies), p', Pos(cs, path), delta);
  }

  /** A walk made of three parts, one entry of whose middle part was bumped. */
  lemma BumpGlue(F: seq<Entry>, G: seq<Entry>, A: seq<Entry>, B: seq<Entry>, C: seq<Entry>, B': seq<Entry>,
                 i: nat, p: nat, delta: int)
    requires F == A + B + C && G == A + B' + C
    requires i < |B| && B' == B[i := Bump(B[i], delta)] && p == |A| + i
    ensures p < |F| && G == F[p := Bump(F[p], delta)]
  {
    UpdateMiddle(A, B, C, i, Bump(B[i], delta));
  }

  /** A score change alters only the walk of the top-level node that `path` goes through. */
  lemma AddScoreSplit(cs: seq<Comment>, path: seq<nat>, delta: int)
    requires ValidPath(cs, path)
    ensures var h, r := path[0], AddScore(cs, path, delta);
            && Flat(cs) == Flat(cs[..h]) + ([EntryOf(cs[h])] + Flat(cs[h].replies)) + Flat(cs[h + 1..])
            && Flat(r) == Flat(cs[..h]) + ([EntryOf(r[h])] + Flat(r[h].replies)) + Flat(cs[h + 1..])
  {
    var h, r := path[0], AddScore(cs, path, delta);
    FlatAround(cs, h, r[h]);
    FlatAround(cs, h, cs[h]);
    assert r == cs[h := r[h]] && cs == cs[h := cs[h]];
  }

  /** The same for the walk of the one top-level node that `path` goes through. */
  lemma {:induction false} AddScoreNodeFlat(cs: seq<Comment>, path: seq<nat>, delta: int) returns (p': nat)
    requires ValidPath(cs, path)
    ensures var c := cs[path[0]];
            var B := [EntryOf(c)] + Flat(c.replies);
            var n := AddScore(cs, path, delta)[path[0]];
            && p' == Pos(cs, path) - |Flat(cs[..path[0]])|
            && p' < |B|
            && [EntryOf(n)] + Flat(n.replies) == B[p' := Bump(B[p'], delta)]
    decreases |path|, 0
  {
    var c := cs[path[0]];
    if |path| == 1 {
      p' := 0;
    } else {
      var n := AddScore(cs, path, delta)[path[0]];
      var D := Flat(c.replies);
      assert n == c.(replies := AddScore(c.replies, path[1..], delta));
      AddScoreFlat(c.replies, path[1..], delta);
      var p'' := Pos(c.replies, path[1..]);
      p' := 1 + p'';
      assert [EntryOf(c)] + D + [] == [EntryOf(c)] + D;
      assert [EntryOf(c)] + Flat(n.replies) + [] == [EntryOf(n)] + Flat(n.replies);
      BumpGlue([EntryOf(c)] + D, [EntryOf(n)] + Flat(n.replies), [EntryOf(c)], D, [], Flat(n.replies),
               p'', p', delta);
    }
  }

  /** Changing a score keeps every path valid. */
  lemma {:induction false} AddScoreKeepsPaths(cs: seq<Comment>, path: seq<nat>, delta: int, other: seq<nat>)
    requires ValidPath(cs, path)
    ensures ValidPath(AddScore(cs, path, delta), other) == ValidPath(cs, other)
  {
    var r := AddScore(cs, path, delta);
    var h := path[0];
    if |other| > 0 && other[0] < |cs| && |other| > 1 {
      if other[0] == h && |path| > 1 {
        AddScoreKeepsPaths(cs[h].replies, path[1..], delta, other[1..]);
      } else {
        assert r[other[0]].replies == cs[other[0]].replies;
      }
    }
  }
}
