/**
 * `highlightText` (script.js:90-108): the text escaped for markup, with every
 * case-insensitive occurrence of the trimmed query wrapped in a `search-hit` mark.
 * The `RegExp` built from the escaped query with the `ig` flags is a literal,
 * ASCII case-insensitive search that resumes after the previous hit.
 */
module Highlight {
  import opened Wrappers
  import opened Text
  import opened Html

  const OpenMark: string := "<mark class=\"search-hit\">"
  const CloseMark: string := "</mark>"

  /** The query matches `t` at `i`, ignoring ASCII case. */
  predicate MatchesAt(t: string, q: string, i: nat)
  {
    i + |q| <= |t| && Lower(t[i..i + |q|]) == Lower(q)
  }

  /** Some occurrence of the query lies wholly inside `s`. */
  predicate HasMatch(s: string, q: string)
  {
    exists j | 0 <= j <= |s| - |q| :: MatchesAt(s, q, j)
  }

  /** `re.exec(t)` with `re.lastIndex == from`: the leftmost match at or after `from`. */
  function NextMatch(t: string, q: string, from: nat): (r: Option<nat>)
    ensures r.Some? ==> from <= r.value && r.value + |q| <= |t|
    decreases |t| - from
  {
    if from + |q| > |t| then None
    else if MatchesAt(t, q, from) then Some(from)
    else NextMatch(t, q, from + 1)
  }

  /** The match found is an occurrence, and there is none between `from` and it. */
  lemma {:induction false} NextMatchSpec(t: string, q: string, from: nat)
    ensures NextMatch(t, q, from).Some? ==> MatchesAt(t, q, NextMatch(t, q, from).value)
    ensures forall j :: from <= j && (NextMatch(t, q, from).None? || j < NextMatch(t, q, from).value)
                        ==> !MatchesAt(t, q, j)
    decreases |t| - from
  {
    if from + |q| <= |t| && !MatchesAt(t, q, from) {
      NextMatchSpec(t, q, from + 1);
    }
  }

  /** A stretch of the text: left as it is, or marked as a hit. */
  datatype Piece = Plain(text: string) | Hit(text: string)

  /** The text the pieces cover, marks removed. */
  function Flatten(ps: seq<Piece>): string
  {
    if ps == [] then "" else ps[0].text + Flatten(ps[1..])
  }

  /** A match inside a slice of `t` is a match in `t`. */
  lemma MatchesAtSlice(t: string, q: string, lo: nat, hi: nat, j: nat)
    requires lo <= hi <= |t|
    requires MatchesAt(t[lo..hi], q, j)
    ensures MatchesAt(t, q, lo + j)
  {
    var a, b := t[lo..hi][j..j + |q|], t[lo + j..lo + j + |q|];
    assert |a| == |b|;
    forall k | 0 <= k < |a| ensures a[k] == b[k] {
      assert a[k] == t[lo + j + k];
    }
    assert a == b;
  }

  /** A hit equals the query up to case; an unmarked piece holds no occurrence of it. */
  predicate CutOk(p: Piece, q: string)
  {
    match p
    case Hit(s) => Lower(s) == Lower(q)
    case Plain(s) => !HasMatch(s, q)
  }

  /** No match starting in `[from, hi)` means no match lies inside `t[from..hi]`. */
  lemma NoMatchInside(t: string, q: string, from: nat, hi: nat)
    requires q != [] && from <= hi <= |t|
    requires forall j :: from <= j < hi ==> !MatchesAt(t, q, j)
    ensures !HasMatch(t[from..hi], q)
  {
    forall j | 0 <= j <= |t[from..hi]| - |q| && MatchesAt(t[from..hi], q, j) ensures false {
      MatchesAtSlice(t, q, from, hi, j);
    }
  }

  /**
   * How the scan cuts `t[from..]`: alternately the text up to the next match and the match,
   * with the rest after the last match.
   */
  function Pieces(t: string, q: string, from: nat): seq<Piece>
    requires q != [] && from <= |t|
    decreases |t| - from
  {
    match NextMatch(t, q, from)
    case None => [Plain(t[from..])]
    case Some(i) => [Plain(t[from..i]), Hit(t[i..i + |q|])] + Pieces(t, q, i + |q|)
  }

  /**
   * The pieces put together give back the text with its own casing, every hit equals the
   * query up to case, and no occurrence of the query lies wholly inside an unmarked piece.
   */
  lemma {:induction false} PiecesSpec(t: string, q: string, from: nat)
    requires q != [] && from <= |t|
    ensures Flatten(Pieces(t, q, from)) == t[from..]
    ensures forall k :: 0 <= k < |Pieces(t, q, from)| ==> CutOk(Pieces(t, q, from)[k], q)
    decreases |t| - from
  {
    var r := Pieces(t, q, from);
    NextMatchSpec(t, q, from);
    match NextMatch(t, q, from)
    case None =>
      NoMatchInside(t, q, from, |t|);
      assert t[from..|t|] == t[from..];
      PiecesLast(t[from..]);
    case Some(i) =>
      var rest := Pieces(t, q, i + |q|);
      PiecesSpec(t, q, i + |q|);
      NoMatchInside(t, q, from, i);
      PiecesStep(t[from..i], t[i..i + |q|], rest, q);
      assert t[from..] == t[from..i] + t[i..i + |q|] + t[i + |q|..];
      assert r == [Plain(t[from..i]), Hit(t[i..i + |q|])] + rest;
      forall k | 2 <= k < |r| ensures CutOk(r[k], q) {
        assert r[k] == rest[k - 2];
      }
  }

  lemma PiecesLast(s: string)
    ensures Flatten([Plain(s)]) == s
  {
    assert Flatten([Plain(s)]) == s + "";
  }

  lemma PiecesStep(a: string, b: string, rest: seq<Piece>, q: string)
    ensures Flatten([Plain(a), Hit(b)] + rest) == a + b + Flatten(rest)
  {
    var r := [Plain(a), Hit(b)] + rest;
    assert r[1..] == [Hit(b)] + rest;
    assert r[1..][1..] == rest;
  }

  /** The markup for one piece. */
  function Render(p: Piece): string
  {
    match p
    case Plain(s) => EscapeHtml(s)
    case Hit(s) => OpenMark + EscapeHtml(s) + CloseMark
  }

  /** The markup for a list of pieces. */
  function Markup(ps: seq<Piece>): string
  {
    if ps == [] then "" else Render(ps[0]) + Markup(ps[1..])
  }

  /** One round of the scan: the text before the match, then the match. */
  lemma PiecesUnfold(t: string, q: string, from: nat, i: nat, next: nat)
    requires q != [] && from <= |t| && next == i + |q|
    requires NextMatch(t, q, from) == Some(i)
    ensures next <= |t|
    ensures Pieces(t, q, from) == [Plain(t[from..i]), Hit(t[i..next])] + Pieces(t, q, next)
  {
  }

  /** The markup of such a round: the escaped text before the match, then the marked match. */
  lemma MarkupStep(a: string, b: string, rest: seq<Piece>)
    ensures Markup([Plain(a), Hit(b)] + rest)
         == EscapeHtml(a) + (OpenMark + EscapeHtml(b) + CloseMark) + Markup(rest)
  {
    var r := [Plain(a), Hit(b)] + rest;
    assert r[1..] == [Hit(b)] + rest;
    assert r[1..][1..] == rest;
  }

  /** The markup still to come, after one more round of the scan. */
  lemma MarkupRound(t: string, q: string, from: nat, i: nat, next: nat)
    requires q != [] && from <= |t| && next == i + |q|
    requires NextMatch(t, q, from) == Some(i)
    ensures next <= |t|
    ensures Markup(Pieces(t, q, from))
         == EscapeHtml(t[from..i]) + (OpenMark + EscapeHtml(t[i..next]) + CloseMark)
            + Markup(Pieces(t, q, next))
  {
    PiecesUnfold(t, q, from, i, next);
    MarkupStep(t[from..i], t[i..next], Pieces(t, q, next));
  }

  /** The last round: no match is left, so the rest is escaped as it is. */
  lemma MarkupLast(t: string, q: string, from: nat)
    requires q != [] && from <= |t|
    requires NextMatch(t, q, from) == None
    ensures Markup(Pieces(t, q, from)) == EscapeHtml(t[from..])
  {
    assert Pieces(t, q, from) == [Plain(t[from..])];
    assert Markup([Plain(t[from..])]) == EscapeHtml(t[from..]) + "";
  }

  /** What `highlightText(text, query)` returns. */
  function Highlight(text: string, query: string): string
  {
    var q := Trim(query);
    if q == "" then EscapeHtml(text) else Markup(Pieces(text, q, 0))
  }

  /** Removes the `search-hit` mark tags and keeps everything else. */
  function StripMarks(s: string): string
  {
    if s == [] then ""
    else if HasPrefix(s, OpenMark) then StripMarks(s[|OpenMark|..])
    else if HasPrefix(s, CloseMark) then StripMarks(s[|CloseMark|..])
    else [s[0]] + StripMarks(s[1..])
  }

  /** Text without `<` passes through `StripMarks` untouched. */
  lemma {:induction false} StripMarksPlain(e: string, rest: string)
    requires '<' !in e
    ensures StripMarks(e + rest) == e + StripMarks(rest)
  {
    if e != [] {
      var s := e + rest;
      assert s[0] == e[0] && s[1..] == e[1..] + rest;
      StripMarksPlain(e[1..], rest);
      StripMarksChar(s);
      assert e == [e[0]] + e[1..];
    } else {
      assert e + rest == rest;
    }
  }

  /** A character other than `<` at the front is kept. */
  lemma StripMarksChar(s: string)
    requires s != [] && s[0] != '<'
    ensures StripMarks(s) == [s[0]] + StripMarks(s[1..])
  {
    assert OpenMark[0] == '<' && CloseMark[0] == '<';
  }

  /** `StripMarks` drops an opening mark tag at the front. */
  lemma StripMarksOpen(rest: string)
    ensures StripMarks(OpenMark + rest) == StripMarks(rest)
  {
    var o := OpenMark + rest;
    assert HasPrefix(o, OpenMark) && o[|OpenMark|..] == rest;
  }

  /** `StripMarks` drops a closing mark tag at the front. */
  lemma StripMarksClose(rest: string)
    ensures StripMarks(CloseMark + rest) == StripMarks(rest)
  {
    var c := CloseMark + rest;
    assert c[1] == '/';
    assert HasPrefix(c, CloseMark) && c[|CloseMark|..] == rest;
  }

  /** A marked hit loses its tags and keeps its escaped text. */
  lemma StripMarksHit(e: string, m: string)
    requires '<' !in e
    ensures StripMarks(OpenMark + e + CloseMark + m) == e + StripMarks(m)
  {
    assert OpenMark + e + CloseMark + m == OpenMark + (e + (CloseMark + m));
    StripMarksOpen(e + (CloseMark + m));
    StripMarksPlain(e, CloseMark + m);
    StripMarksClose(m);
  }

  /** Removing the marks from the markup of some pieces leaves the escaped text they cover. */
  lemma {:induction false} StripMarksOfMarkup(ps: seq<Piece>)
    ensures StripMarks(Markup(ps)) == EscapeHtml(Flatten(ps))
  {
    if ps == [] {
      assert EscapeHtml("") == "";
    } else {
      var e := EscapeHtml(ps[0].text);
      var m := Markup(ps[1..]);
      StripMarksOfMarkup(ps[1..]);
      EscapeHtmlSafe(ps[0].text);
      EscapeHtmlConcat(ps[0].text, Flatten(ps[1..]));
      match ps[0]
      case Plain(s) =>
        StripMarksPlain(e, m);
      case Hit(s) =>
        StripMarksHit(e, m);
    }
  }

  /**
   * The highlighted markup, with the mark tags removed, is exactly the escaped text:
   * marking adds tags and nothing else, and no character of the text or the query
   * reaches the markup unescaped.
   */
  lemma HighlightOnlyAddsMarks(text: string, query: string)
    ensures StripMarks(Highlight(text, query)) == EscapeHtml(text)
  {
    var q := Trim(query);
    if q == "" {
      EscapeHtmlSafe(text);
      StripMarksPlain(EscapeHtml(text), "");
      assert EscapeHtml(text) + "" == EscapeHtml(text);
    } else {
      StripMarksOfMarkup(Pieces(text, q, 0));
      PiecesSpec(text, q, 0);
      assert text[0..] == text;
    }
  }

  /** Deleting the mark tags and decoding the character references gives back the text. */
  lemma HighlightRoundTrip(text: string, query: string)
    ensures Unescape(StripMarks(Highlight(text, query))) == text
  {
    HighlightOnlyAddsMarks(text, query);
    EscapeHtmlRoundTrip(text);
  }

  /**
   * One round of the loop keeps its invariant: what is built so far, followed by the markup
   * still to come, is the whole markup.
   */
  lemma RoundKeeps(t: string, q: string, from: nat, i: nat, next: nat, built: string)
    requires q != [] && from <= |t| && next == i + |q|
    requires NextMatch(t, q, from) == Some(i)
    requires built + Markup(Pieces(t, q, from)) == Markup(Pieces(t, q, 0))
    ensures next <= |t|
    ensures built + EscapeHtml(t[from..i]) + (OpenMark + EscapeHtml(t[i..next]) + CloseMark)
            + Markup(Pieces(t, q, next)) == Markup(Pieces(t, q, 0))
  {
    MarkupRound(t, q, from, i, next);
    AppendRound(built, EscapeHtml(t[from..i]), OpenMark + EscapeHtml(t[i..next]) + CloseMark,
                Markup(Pieces(t, q, next)), Markup(Pieces(t, q, from)), Markup(Pieces(t, q, 0)));
  }

  /** The concatenation step behind `RoundKeeps`, on plain strings. */
  lemma AppendRound(built: string, before: string, mark: string, later: string, pending: string, whole: string)
    requires built + pending == whole && pending == before + mark + later
    ensures built + before + mark + later == whole
  {
  }

  /** `highlightText` as written: a loop over the matches that appends escaped text and marks. */
  method HighlightText(text: string, query: string) returns (result: string)
    ensures Trim(query) == "" ==> result == EscapeHtml(text)
    ensures result == Highlight(text, query)
  {
    if query == "" {
      return EscapeHtml(text);
    }
    var q := Trim(query);
    if q == "" {
      return EscapeHtml(text);
    }
    assert |q| > 0;
    var original := text;
    result := "";
    var lastIndex := 0;
    var reLastIndex := 0;
    var m := NextMatch(original, q, reLastIndex);
    while m.Some?
      invariant lastIndex <= |original| && reLastIndex == lastIndex
      invariant m == NextMatch(original, q, reLastIndex)
      invariant result + Markup(Pieces(original, q, lastIndex)) == Markup(Pieces(original, q, 0))
      decreases |original| - lastIndex
    {
      var index := m.value;
      var next := index + |q|;
      RoundKeeps(original, q, lastIndex, index, next, result);
      result := result + EscapeHtml(original[lastIndex..index]);
      result := result + (OpenMark + EscapeHtml(original[index..next]) + CloseMark);
      lastIndex := next;
      reLastIndex := lastIndex;
      if reLastIndex == index {
        // a zero-width match cannot happen: the query is not empty
        assert false;
        reLastIndex := reLastIndex + 1;
      }
      m := NextMatch(original, q, reLastIndex);
    }
    MarkupLast(original, q, lastIndex);
    result := result + EscapeHtml(original[lastIndex..]);
  }
}
