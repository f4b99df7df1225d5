/** Python's `html.escape(s, quote=True)` and its inverse on escaped text. */
module HtmlEscape {

  /** The five characters `html.escape` rewrites. */
  predicate IsSpecial(c: char) {
    c == '&' || c == '<' || c == '>' || c == '"' || c == '\''
  }

  function EscapeChar(c: char): (r: string)
    ensures |r| >= 1
    ensures !IsSpecial(c) ==> r == [c]
  {
    if c == '&' then "&amp;"
    else if c == '<' then "&lt;"
    else if c == '>' then "&gt;"
    else if c == '"' then "&quot;"
    else if c == '\'' then "&#x27;"
    else [c]
  }

  /** `html.escape(s)`: `&` first, then `<`, `>`, `"` and `'`, each replaced by
      its entity; applying the replacements in that order is the same as
      rewriting each character once. */
  function Escape(s: string): (r: string)
    ensures |r| >= |s|
    ensures forall i :: 0 <= i < |r| ==> r[i] != '<' && r[i] != '>' && r[i] != '"' && r[i] != '\''
    ensures (forall i :: 0 <= i < |s| ==> !IsSpecial(s[i])) ==> r == s
    decreases |s|
  {
    if |s| == 0 then "" else EscapeChar(s[0]) + Escape(s[1..])
  }

  /** Decodes the five entities `Escape` produces; any other text is kept. */
  function Unescape(s: string): string
    decreases |s|
  {
    if |s| == 0 then ""
    else if "&amp;" <= s then "&" + Unescape(s[5..])
    else if "&lt;" <= s then "<" + Unescape(s[4..])
    else if "&gt;" <= s then ">" + Unescape(s[4..])
    else if "&quot;" <= s then "\"" + Unescape(s[6..])
    else if "&#x27;" <= s then "'" + Unescape(s[6..])
    else [s[0]] + Unescape(s[1..])
  }

  lemma UnescapeEscapeChar(c: char, t: string)
    ensures Unescape(EscapeChar(c) + t) == [c] + Unescape(t)
  {
    var e := EscapeChar(c);
    var s := e + t;
    assert s[|e|..] == t;
    assert s[0] == e[0];
    if IsSpecial(c) {
      assert s[1] == e[1];
    }
    if c == '&' {
      assert "&amp;" <= s;
    } else if c == '<' {
      assert !("&amp;" <= s) && "&lt;" <= s;
    } else if c == '>' {
      assert !("&amp;" <= s) && !("&lt;" <= s) && "&gt;" <= s;
    } else if c == '"' {
      assert !("&amp;" <= s) && !("&lt;" <= s) && !("&gt;" <= s) && "&quot;" <= s;
    } else if c == '\'' {
      assert !("&amp;" <= s) && !("&lt;" <= s) && !("&gt;" <= s) && !("&quot;" <= s) && "&#x27;" <= s;
    } else {
      assert s[0] == c && s[1..] == t;
    }
  }

  /** Escaping loses nothing: the escaped text decodes to the original. */
  lemma {:induction false} UnescapeEscape(s: string)
    ensures Unescape(Escape(s)) == s
    decreases |s|
  {
    if |s| > 0 {
      UnescapeEscapeChar(s[0], Escape(s[1..]));
      UnescapeEscape(s[1..]);
      assert [s[0]] + s[1..] == s;
    }
  }

  /** Text without `&` decodes to itself. */
  lemma {:induction false} UnescapePlain(s: string)
    requires forall i :: 0 <= i < |s| ==> s[i] != '&'
    ensures Unescape(s) == s
    decreases |s|
  {
    if |s| > 0 {
      assert s[0] != '&';
      UnescapePlain(s[1..]);
      assert [s[0]] + s[1..] == s;
    }
  }
}
