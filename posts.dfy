/**
 * Posts as the board stores them, how a new one is built from the form (script.js:110-119,
 * 345-350), how a search query selects them (script.js:57-77) and how the list is read back
 * from storage (script.js:39-48).
 */
module Posts {
  import opened Wrappers
  import opened Text
  import opened Comments

  /** `{ id, title, description, tags, score, comments }` */
  datatype Post = Post(id: string, title: string, description: string, tags: seq<string>,
                       score: int, comments: seq<Comment>)

  /** `a` is `b` with some elements left out, the rest kept in order. */
  predicate IsSubseq<T(==)>(a: seq<T>, b: seq<T>)
  {
    a == [] || (b != [] && ((a[0] == b[0] && IsSubseq(a[1..], b[1..])) || IsSubseq(a, b[1..])))
  }

  lemma {:induction false} IsSubseqRefl<T>(s: seq<T>)
    ensures IsSubseq(s, s)
  {
    if s != [] {
      IsSubseqRefl(s[1..]);
    }
  }

  /** `s.filter(keep)` */
  function Filter<T>(s: seq<T>, keep: T -> bool): seq<T>
  {
    if s == [] then []
    else if keep(s[0]) then [s[0]] + Filter(s[1..], keep)
    else Filter(s[1..], keep)
  }

  /** A filter keeps the elements `keep` accepts, in their order, and no others. */
  lemma {:induction false} FilterSpec<T>(s: seq<T>, keep: T -> bool)
    ensures IsSubseq(Filter(s, keep), s)
    ensures forall k :: 0 <= k < |Filter(s, keep)| ==> keep(Filter(s, keep)[k]) && Filter(s, keep)[k] in s
    ensures forall k :: 0 <= k < |s| && keep(s[k]) ==> s[k] in Filter(s, keep)
    ensures forall x :: multiset(Filter(s, keep))[x] == if keep(x) then multiset(s)[x] else 0
  {
    FilterSubseq(s, keep);
    var r := Filter(s, keep);
    forall k | 0 <= k < |r|
      ensures keep(r[k]) && r[k] in s
    {
      FilterCount(s, keep, r[k]);
      assert r[k] in multiset(r);
    }
    forall k | 0 <= k < |s| && keep(s[k])
      ensures s[k] in r
    {
      FilterCount(s, keep, s[k]);
      assert s[k] in multiset(s);
    }
    forall x
      ensures multiset(r)[x] == if keep(x) then multiset(s)[x] else 0
    {
      FilterCount(s, keep, x);
    }
  }

  /** The elements a filter keeps stay in their order. */
  lemma {:induction false} FilterSubseq<T>(s: seq<T>, keep: T -> bool)
    ensures IsSubseq(Filter(s, keep), s)
  {
    if s != [] {
      FilterSubseq(s[1..], keep);
    }
  }

  /** A filter keeps every copy of an accepted element and no copy of a rejected one. */
  lemma {:induction false} FilterCount<T>(s: seq<T>, keep: T -> bool, x: T)
    ensures multiset(Filter(s, keep))[x] == if keep(x) then multiset(s)[x] else 0
  {
    if s != [] {
      FilterCount(s[1..], keep, x);
      assert s == [s[0]] + s[1..];
      assert multiset(s) == multiset{s[0]} + multiset(s[1..]);
    }
  }

  /** A filter that accepts everything keeps the sequence as it is. */
  lemma {:induction false} FilterAll<T>(s: seq<T>, keep: T -> bool)
    requires forall k :: 0 <= k < |s| ==> keep(s[k])
    ensures Filter(s, keep) == s
  {
    if s != [] {
      FilterAll(s[1..], keep);
    }
  }

  /** `s.slice().reverse()` */
  function Reverse<T>(s: seq<T>): (r: seq<T>)
    ensures |r| == |s|
    ensures forall k :: 0 <= k < |s| ==> r[k] == s[|s| - 1 - k]
  {
    if s == [] then [] else Reverse(s[1..]) + [s[0]]
  }

  /** Reversing keeps every element, as often as it occurs. */
  lemma {:induction false} ReverseMultiset<T>(s: seq<T>)
    ensures multiset(Reverse(s)) == multiset(s)
  {
    if s != [] {
      ReverseMultiset(s[1..]);
      assert s == [s[0]] + s[1..];
    }
  }

  /** Filtering the reversed sequence keeps as many copies of each element as filtering it. */
  lemma FilterReverseCount<T>(s: seq<T>, keep: T -> bool)
    ensures forall x :: multiset(Filter(Reverse(s), keep))[x] == if keep(x) then multiset(s)[x] else 0
  {
    ReverseMultiset(s);
    forall x
      ensures multiset(Filter(Reverse(s), keep))[x] == if keep(x) then multiset(s)[x] else 0
    {
      FilterCount(Reverse(s), keep, x);
    }
  }

  /** A tag as a new post keeps it: not empty, already trimmed, without a comma. */
  predicate CleanTag(t: string)
  {
    t != "" && Trim(t) == t && ',' !in t
  }

  /** `parts.map(t => t.trim())` */
  function TrimEach(parts: seq<string>): (r: seq<string>)
    ensures |r| == |parts|
    ensures forall k :: 0 <= k < |parts| ==> r[k] == Trim(parts[k])
  {
    if parts == [] then [] else [Trim(parts[0])] + TrimEach(parts[1..])
  }

  /** `Boolean` on a string: only the empty string is falsy. */
  predicate NonBlank(t: string)
  {
    t != ""
  }

  /** `tags ? tags.split(',').map(t => t.trim()).filter(Boolean) : []` */
  function ParseTags(tags: string): seq<string>
  {
    if tags == "" then [] else Filter(TrimEach(Split(tags, ',')), NonBlank)
  }

  /** Every parsed tag is clean. */
  lemma ParseTagsClean(tags: string)
    ensures forall k :: 0 <= k < |ParseTags(tags)| ==> CleanTag(ParseTags(tags)[k])
  {
    if tags != "" {
      var pieces := Split(tags, ',');
      var trimmed := TrimEach(pieces);
      var r := ParseTags(tags);
      FilterSpec(trimmed, NonBlank);
      forall k | 0 <= k < |r|
        ensures CleanTag(r[k])
      {
        var j :| 0 <= j < |trimmed| && trimmed[j] == r[k];
        TrimIdempotent(pieces[j]);
        if ',' in r[k] {
          TrimChars(pieces[j], ',');
        }
      }
    }
  }

  /** Clean tags written back with commas parse to the same tags. */
  lemma ParseTagsJoin(tags: seq<string>)
    requires forall k :: 0 <= k < |tags| ==> CleanTag(tags[k])
    ensures ParseTags(Join(tags, ",")) == tags
  {
    if tags != [] {
      assert "," == [','];
      SplitJoin(tags, ',');
      assert TrimEach(tags) == tags;
      FilterAll(tags, NonBlank);
    }
  }

  lemma TrimPieces()
    ensures TrimEach(["a", " b ", "", " c"]) == ["a", "b", "", "c"]
  {
    assert Trim("a") == "a" by {
      assert !IsSpace('a');
    }
    assert Trim(" b ") == "b" by {
      assert !IsSpace('b') && IsSpace(' ');
      assert " b "[1..] == "b " && "b "[..1] == "b";
    }
    assert Trim(" c") == "c" by {
      assert !IsSpace('c') && IsSpace(' ');
      assert " c"[1..] == "c";
    }
  }

  lemma SplitPieces()
    ensures Split("a, b ,, c", ',') == ["a", " b ", "", " c"]
  {
    SplitJoin(["a", " b ", "", " c"], ',');
    assert Join(["a", " b ", "", " c"], [',']) == "a, b ,, c";
  }

  /** Blank pieces and the spaces around commas are dropped, the order is kept. */
  lemma ParseTagsExample()
    ensures ParseTags("a, b ,, c") == ["a", "b", "c"]
    ensures ParseTags("") == []
  {
    SplitPieces();
    TrimPieces();
    FilterPieces();
  }

  lemma FilterPieces()
    ensures Filter(["a", "b", "", "c"], NonBlank) == ["a", "b", "c"]
  {
    assert Filter(["a", "b", "", "c"], NonBlank) == ["a"] + Filter(["b", "", "c"], NonBlank);
    assert Filter(["b", "", "c"], NonBlank) == ["b"] + Filter(["", "c"], NonBlank);
    assert Filter(["", "c"], NonBlank) == Filter(["c"], NonBlank);
  }

  /** `createPostObject` (script.js:110-119), with the id supplied by the caller. */
  function CreatePostObject(id: string, title: string, description: string, tags: string): Post
  {
    Post(id, title, description, ParseTags(tags), 0, [])
  }

  /** A new post keeps the fields it was given, starts at score zero without comments, and its tags are clean. */
  lemma NewPostShape(id: string, title: string, description: string, tags: string)
    ensures var p := CreatePostObject(id, title, description, tags);
            && p.id == id && p.title == title && p.description == description
            && p.score == 0 && |Flat(p.comments)| == 0
            && forall k :: 0 <= k < |p.tags| ==> CleanTag(p.tags[k])
  {
    ParseTagsClean(tags);
  }

  /** The new-post form's guard (script.js:345-348), on the raw inputs. */
  predicate PostFormAccepts(title: string, description: string)
  {
    Trim(title) != "" && Trim(description) != ""
  }

  /**
   * What the new-post form's submit adds (script.js:345-349): nothing when the trimmed title or
   * description is blank, otherwise the post built from the three trimmed fields.
   */
  function PostFromForm(title: string, description: string, tags: string, id: string): (r: Option<Post>)
    ensures r.Some? <==> PostFormAccepts(title, description)
  {
    var t := Trim(title);
    var desc := Trim(description);
    var tg := Trim(tags);
    if t == "" || desc == "" then None else Some(CreatePostObject(id, t, desc, tg))
  }

  /** The form is accepted exactly when title and description each hold a non-space character. */
  lemma PostFormAcceptsIff(title: string, description: string)
    ensures PostFormAccepts(title, description) <==>
            (exists k :: 0 <= k < |title| && !IsSpace(title[k])) &&
            (exists k :: 0 <= k < |description| && !IsSpace(description[k]))
  {
    TrimEmptyIff(title);
    TrimEmptyIff(description);
  }

  /** One comment entry matches a lowered query: `c.text && c.text.toLowerCase().includes(q)`. */
  predicate TextHit(e: Entry, q: string)
  {
    e.text != "" && Includes(Lower(e.text), q)
  }

  predicate AnyHit(es: seq<Entry>, q: string)
  {
    exists k :: 0 <= k < |es| && TextHit(es[k], q)
  }

  lemma AnyHitConcat(a: seq<Entry>, b: seq<Entry>, q: string)
    ensures AnyHit(a + b, q) <==> AnyHit(a, q) || AnyHit(b, q)
  {
    if AnyHit(a + b, q) {
      var k :| 0 <= k < |a + b| && TextHit((a + b)[k], q);
      if k >= |a| {
        assert (a + b)[k] == b[k - |a|];
      }
    }
    if AnyHit(a, q) {
      var k :| 0 <= k < |a| && TextHit(a[k], q);
      assert (a + b)[k] == a[k];
    }
    if AnyHit(b, q) {
      var k :| 0 <= k < |b| && TextHit(b[k], q);
      assert (a + b)[|a| + k] == b[k];
    }
  }

  /** `commentsMatch(items)` (script.js:68-74), with the early returns of its loop. */
  predicate CommentsMatch(items: seq<Comment>, q: string)
  {
    if items == [] then false
    else if items[0].text != "" && Includes(Lower(items[0].text), q) then true
    else if |items[0].replies| > 0 && CommentsMatch(items[0].replies, q) then true
    else CommentsMatch(items[1..], q)
  }

  /** The recursive search finds a hit exactly when some comment, at any depth, is one. */
  lemma {:induction false} CommentsMatchIff(items: seq<Comment>, q: string)
    ensures CommentsMatch(items, q) <==> AnyHit(Flat(items), q)
  {
    if items != [] {
      var c := items[0];
      CommentsMatchIff(c.replies, q);
      CommentsMatchIff(items[1..], q);
      AnyHitConcat([EntryOf(c)] + Flat(c.replies), Flat(items[1..]), q);
      AnyHitConcat([EntryOf(c)], Flat(c.replies), q);
      assert AnyHit([EntryOf(c)], q) <==> TextHit(EntryOf(c), q) by {
        assert [EntryOf(c)][0] == EntryOf(c);
      }
    }
  }

  /** `matchesPost(post, query)` (script.js:62-77): the checks in the order the code makes them. */
  predicate MatchesPost(p: Post, query: string)
  {
    var q := Lower(query);
    if Includes(Lower(p.title), q) then true
    else if Includes(Lower(p.description), q) then true
    else if Includes(Lower(Join(p.tags, " ")), q) then true
    else if |p.comments| > 0 && CommentsMatch(p.comments, q) then true
    else false
  }

  /**
   * A post matches when the lowered query occurs in its lowered title, description or
   * space-joined tags, or in the text of any of its comments at any depth.
   */
  lemma MatchesPostIff(p: Post, query: string)
    ensures MatchesPost(p, query) <==>
            || Includes(Lower(p.title), Lower(query))
            || Includes(Lower(p.description), Lower(query))
            || Includes(Lower(Join(p.tags, " ")), Lower(query))
            || AnyHit(Flat(p.comments), Lower(query))
  {
    CommentsMatchIff(p.comments, Lower(query));
  }

  /** A hit in any one comment, however deeply nested, makes the whole post match. */
  lemma DeepCommentMatches(p: Post, path: seq<nat>, query: string)
    requires ValidPath(p.comments, path)
    requires TextHit(EntryOf(At(p.comments, path)), Lower(query))
    ensures MatchesPost(p, query)
  {
    FlatAt(p.comments, path);
    MatchesPostIff(p, query);
    assert TextHit(Flat(p.comments)[Pos(p.comments, path)], Lower(query));
  }

  /** The search ignores case in the query: lowering it first changes nothing. */
  lemma MatchesPostCaseInsensitive(p: Post, query: string)
    ensures MatchesPost(p, Lower(query)) == MatchesPost(p, query)
  {
    LowerIdempotent(query);
  }

  /**
   * The selection `renderAll` shows (script.js:57-58): newest first, and only matching posts
   * when a search is set. Every shown post is a stored post, and none that matches is missing.
   */
  function Shown(posts: seq<Post>, search: string): (r: seq<Post>)
    ensures search == "" ==> r == Reverse(posts)
    ensures IsSubseq(r, Reverse(posts))
    ensures forall k :: 0 <= k < |r| ==> r[k] in posts && (search == "" || MatchesPost(r[k], search))
    ensures forall k :: 0 <= k < |posts| && (search == "" || MatchesPost(posts[k], search)) ==> posts[k] in r
    ensures search != "" ==> forall x :: multiset(r)[x] == if MatchesPost(x, search) then multiset(posts)[x] else 0
  {
    var list := Reverse(posts);
    assert forall k :: 0 <= k < |posts| ==> posts[k] == list[|posts| - 1 - k];
    assert forall k :: 0 <= k < |list| ==> list[k] == posts[|posts| - 1 - k];
    var keep := (p: Post) => MatchesPost(p, search);
    FilterSpec(list, keep);
    FilterReverseCount(posts, keep);
    if search != "" then Filter(list, keep)
    else IsSubseqRefl(list); list
  }

  /** A post just added at the end is shown first, unless a search it does not match is set. */
  lemma NewestShownFirst(posts: seq<Post>, p: Post, search: string)
    requires search == "" || MatchesPost(p, search)
    ensures |Shown(posts + [p], search)| > 0 && Shown(posts + [p], search)[0] == p
  {
    var list := Reverse(posts + [p]);
    assert list[0] == p;
  }

  /**
   * `loadPosts()` (script.js:39-48) on what storage holds under the posts key: nothing or an
   * empty string gives no posts, and so does text that does not parse.
   */
  function LoadPosts(raw: Option<string>, decode: string -> Option<seq<Post>>): (r: seq<Post>)
    ensures raw == None || raw == Some("") ==> r == []
    ensures raw.Some? && raw.value != "" && decode(raw.value).None? ==> r == []
  {
    if raw.None? || raw.value == "" then [] else decode(raw.value).GetOr([])
  }

  /** Posts saved with an encoding the decoder inverts are loaded back unchanged. */
  lemma LoadSaved(posts: seq<Post>, encode: seq<Post> -> string, decode: string -> Option<seq<Post>>)
    requires encode(posts) != "" && decode(encode(posts)) == Some(posts)
    ensures LoadPosts(Some(encode(posts)), decode) == posts
  {
  }
}
