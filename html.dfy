/**
 * `escapeHtml` (script.js:80-87): five global replacements applied in turn, so that
 * user text placed into markup is never read as markup.
 * `Unescape` is the reference inverse used to state that nothing is lost.
 */
module Html {

  /** `s.replace(/c/g, rep)` for a one-character pattern. */
  function ReplaceAll(s: string, c: char, rep: string): string
  {
    if s == [] then ""
    else (if s[0] == c then rep else [s[0]]) + ReplaceAll(s[1..], c, rep)
  }

  /** `escapeHtml(s)` as written: ampersand first, then `<`, `>`, `"` and `'`. */
  function EscapeHtml(s: string): string
  {
    ReplaceAll(ReplaceAll(ReplaceAll(ReplaceAll(ReplaceAll(
      s, '&', "&amp;"), '<', "&lt;"), '>', "&gt;"), '"', "&quot;"), '\'', "&#039;")
  }

  /** The character reference one character escapes to (itself when it needs none). */
  function EscapeChar(c: char): string
  {
    match c
    case '&' => "&amp;"
    case '<' => "&lt;"
    case '>' => "&gt;"
    case '"' => "&quot;"
    case '\'' => "&#039;"
    case _ => [c]
  }

  /** Escaping character by character. */
  function EscapeEach(s: string): string
  {
    if s == [] then "" else EscapeChar(s[0]) + EscapeEach(s[1..])
  }

  predicate HasPrefix(s: string, p: string)
  {
    |p| <= |s| && s[..|p|] == p
  }

  /** Decodes the five character references `EscapeHtml` produces; every other character stays. */
  function Unescape(s: string): string
  {
    if s == [] then ""
    else if s[0] != '&' then [s[0]] + Unescape(s[1..])
    else if HasPrefix(s, "&amp;") then "&" + Unescape(s[5..])
    else if HasPrefix(s, "&lt;") then "<" + Unescape(s[4..])
    else if HasPrefix(s, "&gt;") then ">" + Unescape(s[4..])
    else if HasPrefix(s, "&quot;") then "\"" + Unescape(s[6..])
    else if HasPrefix(s, "&#039;") then "'" + Unescape(s[6..])
    else [s[0]] + Unescape(s[1..])
  }

  lemma {:induction false} ReplaceAllConcat(a: string, b: string, c: char, rep: string)
    ensures ReplaceAll(a + b, c, rep) == ReplaceAll(a, c, rep) + ReplaceAll(b, c, rep)
  {
    if a != [] {
      assert (a + b)[0] == a[0];
      assert (a + b)[1..] == a[1..] + b;
      ReplaceAllConcat(a[1..], b, c, rep);
    } else {
      assert a + b == b;
    }
  }

  lemma ReplaceAllOne(x: char, c: char, rep: string)
    ensures ReplaceAll([x], c, rep) == if x == c then rep else [x]
  {
    assert [x][1..] == [];
  }

  lemma {:induction false} ReplaceAllAbsent(s: string, c: char, rep: string)
    requires c !in s
    ensures ReplaceAll(s, c, rep) == s
  {
    if s != [] {
      ReplaceAllAbsent(s[1..], c, rep);
    }
  }

  /** Escaping distributes over concatenation. */
  lemma EscapeHtmlConcat(a: string, b: string)
    ensures EscapeHtml(a + b) == EscapeHtml(a) + EscapeHtml(b)
  {
    var s1a, s1b := ReplaceAll(a, '&', "&amp;"), ReplaceAll(b, '&', "&amp;");
    ReplaceAllConcat(a, b, '&', "&amp;");
    var s2a, s2b := ReplaceAll(s1a, '<', "&lt;"), ReplaceAll(s1b, '<', "&lt;");
    ReplaceAllConcat(s1a, s1b, '<', "&lt;");
    var s3a, s3b := ReplaceAll(s2a, '>', "&gt;"), ReplaceAll(s2b, '>', "&gt;");
    ReplaceAllConcat(s2a, s2b, '>', "&gt;");
    var s4a, s4b := ReplaceAll(s3a, '"', "&quot;"), ReplaceAll(s3b, '"', "&quot;");
    ReplaceAllConcat(s3a, s3b, '"', "&quot;");
    ReplaceAllConcat(s4a, s4b, '\'', "&#039;");
  }

  /** Each pass replaces only its own character, because no replacement text contains a later pattern. */
  lemma EscapeHtmlOne(c: char)
    ensures EscapeHtml([c]) == EscapeChar(c)
  {
    var s1 := ReplaceAll([c], '&', "&amp;");
    ReplaceAllOne(c, '&', "&amp;");
    if c == '&' {
      EscapeTail(s1, 1);
    } else {
      var s2 := ReplaceAll(s1, '<', "&lt;");
      ReplaceAllOne(c, '<', "&lt;");
      if c == '<' {
        EscapeTail(s2, 2);
      } else {
        var s3 := ReplaceAll(s2, '>', "&gt;");
        ReplaceAllOne(c, '>', "&gt;");
        if c == '>' {
          EscapeTail(s3, 3);
        } else {
          var s4 := ReplaceAll(s3, '"', "&quot;");
          ReplaceAllOne(c, '"', "&quot;");
          if c == '"' {
            EscapeTail(s4, 4);
          } else {
            ReplaceAllOne(c, '\'', "&#039;");
          }
        }
      }
    }
  }

  /** The passes after pass `done` leave `s` alone when it holds none of their characters. */
  lemma EscapeTail(s: string, done: nat)
    requires 1 <= done <= 4
    requires done < 2 ==> '<' !in s
    requires done < 3 ==> '>' !in s
    requires done < 4 ==> '"' !in s
    requires '\'' !in s
    ensures Passes(s, done) == s
  {
    if done < 2 { ReplaceAllAbsent(s, '<', "&lt;"); }
    if done < 3 { ReplaceAllAbsent(s, '>', "&gt;"); }
    if done < 4 { ReplaceAllAbsent(s, '"', "&quot;"); }
    ReplaceAllAbsent(s, '\'', "&#039;");
  }

  /** The passes of `EscapeHtml` that follow pass number `done`. */
  function Passes(s: string, done: nat): string
  {
    var s2 := if done < 2 then ReplaceAll(s, '<', "&lt;") else s;
    var s3 := if done < 3 then ReplaceAll(s2, '>', "&gt;") else s2;
    var s4 := if done < 4 then ReplaceAll(s3, '"', "&quot;") else s3;
    ReplaceAll(s4, '\'', "&#039;")
  }

  /** The chain of replacements equals escaping each character on its own. */
  lemma {:induction false} EscapeHtmlIsPerChar(s: string)
    ensures EscapeHtml(s) == EscapeEach(s)
  {
    if s == [] {
      assert EscapeHtml(s) == "";
    } else {
      assert s == [s[0]] + s[1..];
      EscapeHtmlConcat([s[0]], s[1..]);
      EscapeHtmlOne(s[0]);
      EscapeHtmlIsPerChar(s[1..]);
    }
  }

  lemma {:induction false} EscapeEachSafe(s: string)
    ensures '<' !in EscapeEach(s) && '>' !in EscapeEach(s)
    ensures '"' !in EscapeEach(s) && '\'' !in EscapeEach(s)
  {
    if s != [] {
      EscapeEachSafe(s[1..]);
      EscapeCharSafe(s[0]);
      SafeConcat(EscapeChar(s[0]), EscapeEach(s[1..]));
    }
  }

  /** A single character reference holds none of the four characters either. */
  lemma EscapeCharSafe(c: char)
    ensures '<' !in EscapeChar(c) && '>' !in EscapeChar(c)
    ensures '"' !in EscapeChar(c) && '\'' !in EscapeChar(c)
  {
  }

  lemma SafeConcat(a: string, b: string)
    requires '<' !in a && '>' !in a && '"' !in a && '\'' !in a
    requires '<' !in b && '>' !in b && '"' !in b && '\'' !in b
    ensures '<' !in a + b && '>' !in a + b
    ensures '"' !in a + b && '\'' !in a + b
  {
  }

  /** Decoding a character reference at the front gives its character back. */
  lemma UnescapeRef(c: char, rest: string)
    requires c in "&<>\"'"
    ensures Unescape(EscapeChar(c) + rest) == [c] + Unescape(rest)
  {
    if c == '&' {
      UnescapeAmp(rest);
    } else if c == '<' {
      UnescapeLt(rest);
    } else if c == '>' {
      UnescapeGt(rest);
    } else if c == '"' {
      UnescapeQuot(rest);
    } else {
      UnescapeApos(rest);
    }
  }

  lemma UnescapeAmp(rest: string)
    ensures Unescape("&amp;" + rest) == "&" + Unescape(rest)
  {
    var e := "&amp;" + rest;
    assert HasPrefix(e, "&amp;") && e[5..] == rest;
  }

  lemma UnescapeLt(rest: string)
    ensures Unescape("&lt;" + rest) == "<" + Unescape(rest)
  {
    var e := "&lt;" + rest;
    assert e[1] == 'l';
    assert HasPrefix(e, "&lt;") && e[4..] == rest;
  }

  lemma UnescapeGt(rest: string)
    ensures Unescape("&gt;" + rest) == ">" + Unescape(rest)
  {
    var e := "&gt;" + rest;
    assert e[1] == 'g';
    assert HasPrefix(e, "&gt;") && e[4..] == rest;
  }

  lemma UnescapeQuot(rest: string)
    ensures Unescape("&quot;" + rest) == "\"" + Unescape(rest)
  {
    var e := "&quot;" + rest;
    assert e[1] == 'q';
    assert HasPrefix(e, "&quot;") && e[6..] == rest;
  }

  lemma UnescapeApos(rest: string)
    ensures Unescape("&#039;" + rest) == "'" + Unescape(rest)
  {
    var e := "&#039;" + rest;
    assert e[1] == '#';
    assert HasPrefix(e, "&#039;") && e[6..] == rest;
  }

  /** A character that needs no reference is decoded as itself. */
  lemma UnescapePlain(c: char, rest: string)
    requires c !in "&<>\"'"
    ensures Unescape(EscapeChar(c) + rest) == [c] + Unescape(rest)
  {
    var e := EscapeChar(c) + rest;
    assert e[0] == c && e[1..] == rest;
  }

  lemma {:induction false} EscapeEachRoundTrip(s: string)
    ensures Unescape(EscapeEach(s)) == s
  {
    if s != [] {
      EscapeEachRoundTrip(s[1..]);
      if s[0] in "&<>\"'" {
        UnescapeRef(s[0], EscapeEach(s[1..]));
      } else {
        UnescapePlain(s[0], EscapeEach(s[1..]));
      }
      assert s == [s[0]] + s[1..];
    }
  }

  /** Escaped text holds none of the characters that open or quote markup. */
  lemma EscapeHtmlSafe(s: string)
    ensures '<' !in EscapeHtml(s) && '>' !in EscapeHtml(s)
    ensures '"' !in EscapeHtml(s) && '\'' !in EscapeHtml(s)
  {
    EscapeHtmlIsPerChar(s);
    EscapeEachSafe(s);
  }

  /** Escaping loses nothing: decoding the references gives the input back. */
  lemma EscapeHtmlRoundTrip(s: string)
    ensures Unescape(EscapeHtml(s)) == s
  {
    EscapeHtmlIsPerChar(s);
    EscapeEachRoundTrip(s);
  }
}
