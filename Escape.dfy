/**
 * `escapeHtml` and `escapeAttr` of the browser client: the text placed in
 * the rendered cards and in the `href` attribute of their links.
 */
module Escape {
  import opened Wrappers
  import opened Text

  /** The five `replaceAll` calls of `escapeHtml`, in the order the source makes them. */
  function ReplaceSpecials(s: string): (r: string)
    ensures '<' !in r && '>' !in r && '"' !in r && '\'' !in r
  {
    var amp := ReplaceChar(s, '&', "&amp;");
    var lt := ReplaceChar(amp, '<', "&lt;");
    var gt := ReplaceChar(lt, '>', "&gt;");
    var quot := ReplaceChar(gt, '"', "&quot;");
    ReplaceChar(quot, '\'', "&#039;")
  }

  /** `escapeHtml(str)`: an absent or empty value becomes the empty string. */
  function EscapeHtml(str: Option<string>): (r: string)
    ensures !Truthy(str) ==> r == ""
    ensures '<' !in r && '>' !in r && '"' !in r && '\'' !in r
  {
    ReplaceSpecials(OrElse(str, ""))
  }

  /** `escapeAttr(str)`: `escapeHtml` and then the backtick. */
  function EscapeAttr(str: Option<string>): (r: string)
    ensures !Truthy(str) ==> r == ""
    ensures '<' !in r && '>' !in r && '"' !in r && '\'' !in r && '`' !in r
  {
    ReplaceChar(EscapeHtml(str), '`', "&#096;")
  }

  // ---------------------------------------------------------------------
  // An independent, character-at-a-time definition of the same escaping.

  /** The text one character stands for in escaped output. */
  function Entity(c: char): string {
    if c == '&' then "&amp;"
    else if c == '<' then "&lt;"
    else if c == '>' then "&gt;"
    else if c == '"' then "&quot;"
    else if c == '\'' then "&#039;"
    else [c]
  }

  function EscapeEach(s: string): string {
    if s == [] then [] else Entity(s[0]) + EscapeEach(s[1..])
  }

  lemma ReplaceSpecialsConcat(s: string, t: string)
    ensures ReplaceSpecials(s + t) == ReplaceSpecials(s) + ReplaceSpecials(t)
  {
    var amp, amp' := ReplaceChar(s, '&', "&amp;"), ReplaceChar(t, '&', "&amp;");
    ReplaceCharConcat(s, t, '&', "&amp;");
    var lt, lt' := ReplaceChar(amp, '<', "&lt;"), ReplaceChar(amp', '<', "&lt;");
    ReplaceCharConcat(amp, amp', '<', "&lt;");
    var gt, gt' := ReplaceChar(lt, '>', "&gt;"), ReplaceChar(lt', '>', "&gt;");
    ReplaceCharConcat(lt, lt', '>', "&gt;");
    var quot, quot' := ReplaceChar(gt, '"', "&quot;"), ReplaceChar(gt', '"', "&quot;");
    ReplaceCharConcat(gt, gt', '"', "&quot;");
    ReplaceCharConcat(quot, quot', '\'', "&#039;");
  }

  lemma ReplaceCharOfOne(c: char, x: char, repl: string)
    ensures ReplaceChar([c], x, repl) == if c == x then repl else [c]
  {
    assert [c][1..] == [];
  }

  /** A string without any of the four later special characters passes the last four stages unchanged. */
  lemma LaterStagesKeep(t: string)
    requires '<' !in t && '>' !in t && '"' !in t && '\'' !in t
    ensures ReplaceChar(ReplaceChar(ReplaceChar(ReplaceChar(t, '<', "&lt;"), '>', "&gt;"), '"', "&quot;"), '\'', "&#039;") == t
  {
    ReplaceCharAbsent(t, '<', "&lt;");
    ReplaceCharAbsent(t, '>', "&gt;");
    ReplaceCharAbsent(t, '"', "&quot;");
    ReplaceCharAbsent(t, '\'', "&#039;");
  }

  /** Each stage replaces only its own character; the rest pass through. */
  lemma ReplaceSpecialsOfOne(c: char)
    ensures ReplaceSpecials([c]) == Entity(c)
  {
    var amp := ReplaceChar([c], '&', "&amp;");
    ReplaceCharOfOne(c, '&', "&amp;");
    if c == '&' {
      LaterStagesKeep(amp);
    } else {
      var lt := ReplaceChar(amp, '<', "&lt;");
      ReplaceCharOfOne(c, '<', "&lt;");
      if c == '<' {
        ReplaceCharsAfterLt(lt);
      } else {
        var gt := ReplaceChar(lt, '>', "&gt;");
        ReplaceCharOfOne(c, '>', "&gt;");
        if c == '>' {
          ReplaceCharAbsent(gt, '"', "&quot;");
          ReplaceCharAbsent(gt, '\'', "&#039;");
        } else {
          var quot := ReplaceChar(gt, '"', "&quot;");
          ReplaceCharOfOne(c, '"', "&quot;");
          if c == '"' {
            ReplaceCharAbsent(quot, '\'', "&#039;");
          } else {
            ReplaceCharOfOne(c, '\'', "&#039;");
          }
        }
      }
    }
  }

  lemma ReplaceCharsAfterLt(t: string)
    requires '>' !in t && '"' !in t && '\'' !in t
    ensures ReplaceChar(ReplaceChar(ReplaceChar(t, '>', "&gt;"), '"', "&quot;"), '\'', "&#039;") == t
  {
    ReplaceCharAbsent(t, '>', "&gt;");
    ReplaceCharAbsent(t, '"', "&quot;");
    ReplaceCharAbsent(t, '\'', "&#039;");
  }

  /** The chain of `replaceAll` calls escapes each character on its own. */
  lemma {:induction false} EscapeHtmlIsPerCharacter(s: string)
    ensures ReplaceSpecials(s) == EscapeEach(s)
  {
    if s != [] {
      assert s == [s[0]] + s[1..];
      ReplaceSpecialsConcat([s[0]], s[1..]);
      ReplaceSpecialsOfOne(s[0]);
      EscapeHtmlIsPerCharacter(s[1..]);
    }
  }

  // ---------------------------------------------------------------------
  // Decoding the entities, the inverse of escaping.

  /** Replaces each of the six entities the client writes by its character. */
  function Unescape(s: string): string
    decreases |s|
  {
    if s == [] then []
    else if "&amp;" <= s then "&" + Unescape(s[5..])
    else if "&lt;" <= s then "<" + Unescape(s[4..])
    else if "&gt;" <= s then ">" + Unescape(s[4..])
    else if "&quot;" <= s then "\"" + Unescape(s[6..])
    else if "&#039;" <= s then "'" + Unescape(s[6..])
    else if "&#096;" <= s then "`" + Unescape(s[6..])
    else [s[0]] + Unescape(s[1..])
  }

  lemma UnescapeEntity(c: char, rest: string)
    ensures Unescape(Entity(c) + rest) == [c] + Unescape(rest)
  {
    var e := Entity(c);
    var t := e + rest;
    assert t[..|e|] == e;
    assert t[|e|..] == rest;
    if e == [c] {
      assert t[0] == c && t[1..] == rest;
      assert c != '&';
    } else {
      assert t[0] == '&';
      assert t[1] == e[1];
    }
  }

  /** Decoding escaped text gives back the original text. */
  lemma {:induction false} UnescapeEscapeEach(s: string)
    ensures Unescape(EscapeEach(s)) == s
  {
    if s != [] {
      UnescapeEntity(s[0], EscapeEach(s[1..]));
      UnescapeEscapeEach(s[1..]);
      assert s == [s[0]] + s[1..];
    }
  }

  /** `escapeHtml` loses nothing: decoding its output restores the input text. */
  lemma EscapeHtmlRoundTrip(s: string)
    ensures Unescape(EscapeHtml(Some(s))) == s
  {
    EscapeHtmlIsPerCharacter(s);
    UnescapeEscapeEach(s);
  }
}
