/** The browser side of the chat (static/js/chat.js): the check that decides
    whether server-rendered context HTML may be shown, the sanitiser run over
    the parsed HTML, the choice of what a bot message shows, and the
    submission cycle of the input box. The DOM is an element tree with
    attribute maps, the browser's HTML and URL parsers are parameters, and
    message ids come from a counter. */
module ChatClient {
  import opened Optional
  import opened Strings
  import opened Schemas

  // ---------------------------------------------------------------------------
  // The accordion validator
  // ---------------------------------------------------------------------------

  /** The value the validator receives: a string, or anything else (`null`,
      `undefined`, a number, an object). */
  datatype JsValue = JsString(s: string) | NotAString

  /** The substrings the server's accordion always holds. */
  const RequiredElements: seq<string> := ["embedded-sources-container", "<details", "<summary"]

  /** The six rejected patterns, all case-insensitive: five literal openings
      and the inline event handler `on\w+\s*=`. A literal is written in lower case. */
  datatype DangerPattern = Literal(lower: string) | EventHandler

  const DangerousPatterns: seq<DangerPattern> := [
    Literal("<script"), Literal("javascript:"), EventHandler,
    Literal("<iframe"), Literal("<object"), Literal("<embed")
  ]

  /** `\w` without the `u` flag: ASCII letters, digits and `_`. */
  predicate IsWordChar(c: char) {
    'a' <= c <= 'z' || 'A' <= c <= 'Z' || '0' <= c <= '9' || c == '_'
  }

  predicate AllWordChars(s: string, a: nat, b: nat)
    requires a <= b <= |s|
  {
    forall m :: a <= m < b ==> IsWordChar(s[m])
  }

  predicate AllJsSpace(s: string, a: nat, b: nat)
    requires a <= b <= |s|
  {
    forall m :: a <= m < b ==> IsJsSpace(s[m])
  }

  /** `s[i..k + 1]` reads `on`, in either case, then the word characters
      `s[i + 2..j]` (at least one), the whitespace `s[j..k]`, and `=`. */
  predicate HandlerShape(s: string, i: nat, j: nat, k: nat) {
    && i + 2 < j <= k < |s|
    && AsciiLower(s[i]) == 'o' && AsciiLower(s[i + 1]) == 'n'
    && AllWordChars(s, i + 2, j)
    && AllJsSpace(s, j, k)
    && s[k] == '='
  }

  /** A match of `on\w+\s*=` starts at index `i`. */
  ghost predicate EventHandlerAt(s: string, i: nat) {
    exists j: nat, k: nat :: HandlerShape(s, i, j, k)
  }

  /** What a match of a pattern at index `i` is. `/i` on an ASCII pattern
      folds only ASCII letters: no other character canonicalises to an ASCII one. */
  ghost predicate MatchesAt(p: DangerPattern, s: string, i: nat) {
    match p
    case Literal(lower) => i + |lower| <= |s| && forall k :: 0 <= k < |lower| ==> AsciiLower(s[i + k]) == lower[k]
    case EventHandler => EventHandlerAt(s, i)
  }

  /** `pattern.test(s)`: a match starts somewhere. */
  ghost predicate Matches(p: DangerPattern, s: string) {
    exists i: nat :: i <= |s| && MatchesAt(p, s, i)
  }

  /** The index after the run of word characters starting at `i`. */
  function SkipWord(s: string, i: nat): (j: nat)
    requires i <= |s|
    ensures i <= j <= |s|
    ensures forall m :: i <= m < j ==> IsWordChar(s[m])
    ensures j < |s| ==> !IsWordChar(s[j])
    decreases |s| - i
  {
    if i < |s| && IsWordChar(s[i]) then SkipWord(s, i + 1) else i
  }

  /** A run of word characters ends at the first character that is not one. */
  lemma {:induction false} SkipWordEnds(s: string, i: nat, j: nat)
    requires i <= j <= |s|
    requires forall m :: i <= m < j ==> IsWordChar(s[m])
    requires j < |s| ==> !IsWordChar(s[j])
    ensures SkipWord(s, i) == j
    decreases j - i
  {
    if i < j {
      SkipWordEnds(s, i + 1, j);
    }
  }

  /** A run of whitespace ends at the first character that is not whitespace. */
  lemma {:induction false} SkipSpacesEnds(s: string, i: nat, j: nat)
    requires i <= j <= |s|
    requires forall m :: i <= m < j ==> IsJsSpace(s[m])
    requires j < |s| ==> !IsJsSpace(s[j])
    ensures SkipSpaces(s, JavaScript, i) == j
    decreases j - i
  {
    if i < j {
      SkipSpacesEnds(s, i + 1, j);
    }
  }

  /** The event-handler test at one index: the word run is taken whole, since
      neither whitespace nor `=` is a word character, and so is the blank run. */
  predicate HandlerAt(s: string, i: nat) {
    && i + 2 <= |s|
    && AsciiLower(s[i]) == 'o' && AsciiLower(s[i + 1]) == 'n'
    && var j := SkipWord(s, i + 2);
       && j > i + 2
       && var k := SkipSpaces(s, JavaScript, j);
          k < |s| && s[k] == '='
  }

  lemma HandlerAtIff(s: string, i: nat)
    ensures HandlerAt(s, i) <==> EventHandlerAt(s, i)
  {
    if HandlerAt(s, i) {
      var j := SkipWord(s, i + 2);
      var k := SkipSpaces(s, JavaScript, j);
      assert HandlerShape(s, i, j, k);
    }
    if EventHandlerAt(s, i) {
      var j: nat, k: nat :| HandlerShape(s, i, j, k);
      SkipWordEnds(s, i + 2, j);
      SkipSpacesEnds(s, j, k);
    }
  }

  /** `pattern.test(s)` as the browser runs it. */
  function Test(p: DangerPattern, s: string): (b: bool)
    ensures b <==> Matches(p, s)
  {
    match p
    case Literal(lower) =>
      LiteralTestIff(lower, s);
      Contains(LowerAscii(s), lower)
    case EventHandler =>
      EventHandlerTestIff(s);
      exists i :: 0 <= i < |s| && HandlerAt(s, i)
  }

  lemma LiteralTestIff(lower: string, s: string)
    ensures Contains(LowerAscii(s), lower) <==> Matches(Literal(lower), s)
  {
    var t := LowerAscii(s);
    ContainsIff(t, lower);
    if Contains(t, lower) {
      var i: nat :| OccursAt(t, lower, i);
      forall k | 0 <= k < |lower| ensures AsciiLower(s[i + k]) == lower[k] {
        assert lower[k] == t[i..i + |lower|][k];
      }
      assert MatchesAt(Literal(lower), s, i);
    }
    if Matches(Literal(lower), s) {
      var i: nat :| i <= |s| && MatchesAt(Literal(lower), s, i);
      assert t[i..i + |lower|] == lower;
      assert OccursAt(t, lower, i);
    }
  }

  lemma EventHandlerTestIff(s: string)
    ensures (exists i :: 0 <= i < |s| && HandlerAt(s, i)) <==> Matches(EventHandler, s)
  {
    if exists i :: 0 <= i < |s| && HandlerAt(s, i) {
      var i :| 0 <= i < |s| && HandlerAt(s, i);
      HandlerAtIff(s, i);
      assert MatchesAt(EventHandler, s, i);
    }
    if Matches(EventHandler, s) {
      var i: nat :| i <= |s| && MatchesAt(EventHandler, s, i);
      HandlerAtIff(s, i);
    }
  }

  predicate HasRequiredStructure(html: string) {
    forall e :: e in RequiredElements ==> Contains(html, e)
  }

  predicate HasDangerousContent(html: string) {
    exists p :: p in DangerousPatterns && Test(p, html)
  }

  /** `isValidAndSafeAccordionHTML(html)`: a non-empty string holding the three
      required substrings (case-sensitively) in which no dangerous pattern matches. */
  function IsValidAndSafe(html: JsValue): (ok: bool)
    ensures ok <==>
      && html.JsString? && html.s != ""
      && (forall e :: e in RequiredElements ==> exists i: nat :: OccursAt(html.s, e, i))
      && (forall p :: p in DangerousPatterns ==> !Matches(p, html.s))
  {
    if !html.JsString? || html.s == "" then false
    else
      RequiredIff(html.s);
      HasRequiredStructure(html.s) && !HasDangerousContent(html.s)
  }

  lemma RequiredIff(html: string)
    ensures HasRequiredStructure(html) <==>
      forall e :: e in RequiredElements ==> exists i: nat :: OccursAt(html, e, i)
  {
    forall e | e in RequiredElements
      ensures Contains(html, e) <==> exists i: nat :: OccursAt(html, e, i)
    {
      ContainsIff(html, e);
    }
  }

  /** Whether a dangerous pattern matches depends only on the text up to
      ASCII case: upper-case `<SCRIPT` is refused like `<script`. */
  lemma DangerIgnoresCase(s: string, t: string)
    requires LowerAscii(s) == LowerAscii(t)
    ensures forall p :: Matches(p, s) <==> Matches(p, t)
  {
    assert |s| == |t|;
    assert forall m :: 0 <= m < |s| ==> AsciiLower(s[m]) == AsciiLower(t[m]) by {
      forall m | 0 <= m < |s| ensures AsciiLower(s[m]) == AsciiLower(t[m]) {
        assert LowerAscii(s)[m] == LowerAscii(t)[m];
      }
    }
    forall p ensures Matches(p, s) ==> Matches(p, t) {
      MatchesTransfer(p, s, t);
    }
    forall p ensures Matches(p, t) ==> Matches(p, s) {
      MatchesTransfer(p, t, s);
    }
  }

  /** Characters that fold alike are alike for `\w` and `\s`: the only
      characters `AsciiLower` changes are ASCII letters. */
  lemma FoldsAlike(c: char, d: char)
    requires AsciiLower(c) == AsciiLower(d)
    ensures IsWordChar(c) <==> IsWordChar(d)
    ensures IsJsSpace(c) <==> IsJsSpace(d)
    ensures c == '=' <==> d == '='
  {
  }

  lemma ShapeTransfer(s: string, t: string, i: nat, j: nat, k: nat)
    requires |s| == |t| && forall m :: 0 <= m < |s| ==> AsciiLower(s[m]) == AsciiLower(t[m])
    requires HandlerShape(s, i, j, k)
    ensures HandlerShape(t, i, j, k)
  {
    forall m | i + 2 <= m < j ensures IsWordChar(t[m]) {
      FoldsAlike(s[m], t[m]);
    }
    forall m | j <= m < k ensures IsJsSpace(t[m]) {
      FoldsAlike(s[m], t[m]);
    }
    FoldsAlike(s[k], t[k]);
  }

  lemma MatchesTransfer(p: DangerPattern, s: string, t: string)
    requires |s| == |t| && forall m :: 0 <= m < |s| ==> AsciiLower(s[m]) == AsciiLower(t[m])
    ensures Matches(p, s) ==> Matches(p, t)
  {
    if Matches(p, s) {
      var i: nat :| i <= |s| && MatchesAt(p, s, i);
      match p
      case Literal(lower) =>
        assert MatchesAt(p, t, i);
      case EventHandler =>
        var j: nat, k: nat :| HandlerShape(s, i, j, k);
        ShapeTransfer(s, t, i, j, k);
        assert MatchesAt(p, t, i);
    }
  }

  // ---------------------------------------------------------------------------
  // The sanitiser
  // ---------------------------------------------------------------------------

  /** A parsed DOM node. Elements carry their attributes by (lower-case) name;
      every node that is not an element (text, comments) is a `Text` node,
      which the element walker never visits. */
  datatype Node = Element(tag: string, attrs: map<string, string>, children: seq<Node>) | Text(text: string)

  /** The inline handlers the sanitiser strips; any other attribute stays. */
  const DangerousAttributes: set<string> :=
    {"onclick", "onload", "onerror", "onmouseover", "onfocus", "onblur", "onchange"}

  const Href: string := "href"

  /** The protocols a link may keep after `new URL(href, origin)`. */
  const SafeProtocols: seq<string> := ["http:", "https:"]

  /** Whether `sanitizeHrefAttribute` lets a value stand: empty, site-relative,
      an anchor, or a URL whose protocol is `http:` or `https:`. `protocolOf`
      is the browser's URL parser: `None` when it throws, otherwise the
      parsed protocol. */
  predicate HrefAllowed(href: string, protocolOf: string -> Option<string>) {
    || href == ""
    || "/" <= href
    || "#" <= href
    || (protocolOf(href).Some? && protocolOf(href).value in SafeProtocols)
  }

  /** `sanitizeHrefAttribute(node)` on the node's attributes. */
  function SanitizeHref(attrs: map<string, string>, protocolOf: string -> Option<string>): (r: map<string, string>)
    ensures forall k :: k != Href ==> (k in r <==> k in attrs)
    ensures forall k :: k in r ==> k in attrs && r[k] == attrs[k]
    ensures Href in r <==> Href in attrs && HrefAllowed(attrs[Href], protocolOf)
  {
    if Href !in attrs then attrs
    else
      var href := attrs[Href];
      if href == "" then attrs
      else if "/" <= href || "#" <= href then attrs
      else
        match protocolOf(href)
        case None => attrs - {Href}
        case Some(protocol) => if protocol in SafeProtocols then attrs else attrs - {Href}
  }

  /** What the walker leaves on an element: no listed handler, and a link only
      if it is allowed. */
  predicate AttrsClean(attrs: map<string, string>, protocolOf: string -> Option<string>) {
    && (forall a :: a in DangerousAttributes ==> a !in attrs)
    && (Href in attrs ==> HrefAllowed(attrs[Href], protocolOf))
  }

  /** The sanitised attributes are a sub-map of the original that lost exactly
      the listed handlers and a link that is not allowed. */
  predicate AttrsKept(before: map<string, string>, after: map<string, string>, protocolOf: string -> Option<string>) {
    && (forall k :: k in after ==> k in before && after[k] == before[k])
    && (forall k :: k in before && k !in DangerousAttributes && (k == Href ==> HrefAllowed(before[k], protocolOf)) ==> k in after)
  }

  /** One visit of the walker: the seven handlers are removed, then the link is checked. */
  function CleanAttributes(attrs: map<string, string>, protocolOf: string -> Option<string>): (r: map<string, string>)
    ensures AttrsClean(r, protocolOf)
    ensures AttrsKept(attrs, r, protocolOf)
  {
    SanitizeHref(attrs - DangerousAttributes, protocolOf)
  }

  /** Attributes that are already clean pass through a visit unchanged. */
  lemma CleanAttributesFixes(attrs: map<string, string>, protocolOf: string -> Option<string>)
    requires AttrsClean(attrs, protocolOf)
    ensures CleanAttributes(attrs, protocolOf) == attrs
  {
    assert attrs - DangerousAttributes == attrs;
  }

  /** A node and its whole subtree as the walker leaves them. */
  function SanitizeNode(n: Node, protocolOf: string -> Option<string>): (r: Node)
    ensures n.Text? ==> r == n
    ensures n.Element? ==>
      && r.Element? && r.tag == n.tag && |r.children| == |n.children|
      && AttrsClean(r.attrs, protocolOf) && AttrsKept(n.attrs, r.attrs, protocolOf)
    decreases n
  {
    match n
    case Text(_) => n
    case Element(tag, attrs, children) =>
      Element(tag, CleanAttributes(attrs, protocolOf),
        seq(|children|, i requires 0 <= i < |children| => SanitizeNode(children[i], protocolOf)))
  }

  /** Every element of the subtree has clean attributes. */
  predicate Clean(n: Node, protocolOf: string -> Option<string>)
    decreases n
  {
    match n
    case Text(_) => true
    case Element(_, attrs, children) =>
      AttrsClean(attrs, protocolOf) && forall i :: 0 <= i < |children| ==> Clean(children[i], protocolOf)
  }

  /** `after` is `before` with only attributes removed, as `AttrsKept` allows:
      same shape, same tags, same text. */
  predicate Kept(before: Node, after: Node, protocolOf: string -> Option<string>)
    decreases before
  {
    match before
    case Text(t) => after == Text(t)
    case Element(tag, attrs, children) =>
      && after.Element? && after.tag == tag && AttrsKept(attrs, after.attrs, protocolOf)
      && |after.children| == |children|
      && forall i :: 0 <= i < |children| ==> Kept(children[i], after.children[i], protocolOf)
  }

  lemma {:induction false} SanitizeClean(n: Node, protocolOf: string -> Option<string>)
    ensures Clean(SanitizeNode(n, protocolOf), protocolOf)
    decreases n
  {
    match n
    case Text(_) =>
    case Element(tag, attrs, children) =>
      var r := SanitizeNode(n, protocolOf);
      forall i | 0 <= i < |children| ensures Clean(r.children[i], protocolOf) {
        SanitizeClean(children[i], protocolOf);
      }
  }

  lemma {:induction false} SanitizeKeeps(n: Node, protocolOf: string -> Option<string>)
    ensures Kept(n, SanitizeNode(n, protocolOf), protocolOf)
    decreases n
  {
    match n
    case Text(_) =>
    case Element(tag, attrs, children) =>
      var r := SanitizeNode(n, protocolOf);
      forall i | 0 <= i < |children| ensures Kept(children[i], r.children[i], protocolOf) {
        SanitizeKeeps(children[i], protocolOf);
      }
  }

  /** A clean subtree is left exactly as it was. */
  lemma {:induction false} SanitizeFixesClean(n: Node, protocolOf: string -> Option<string>)
    requires Clean(n, protocolOf)
    ensures SanitizeNode(n, protocolOf) == n
    decreases n
  {
    match n
    case Text(_) =>
    case Element(tag, attrs, children) =>
      var r := SanitizeNode(n, protocolOf);
      CleanAttributesFixes(attrs, protocolOf);
      forall i | 0 <= i < |children| ensures r.children[i] == children[i] {
        SanitizeFixesClean(children[i], protocolOf);
      }
      assert r.children == children;
  }

  /** The walker changes a subtree iff it is not clean, and a second pass
      changes nothing. */
  lemma SanitizeIdempotent(n: Node, protocolOf: string -> Option<string>)
    ensures SanitizeNode(n, protocolOf) == n <==> Clean(n, protocolOf)
    ensures SanitizeNode(SanitizeNode(n, protocolOf), protocolOf) == SanitizeNode(n, protocolOf)
  {
    SanitizeClean(n, protocolOf);
    SanitizeFixesClean(SanitizeNode(n, protocolOf), protocolOf);
    if Clean(n, protocolOf) {
      SanitizeFixesClean(n, protocolOf);
    }
  }

  /** `sanitizeElement(element)`: the tree walker visits every element below
      `element` but not `element` itself, whose attributes stay as they are. */
  function SanitizeElement(root: Node, protocolOf: string -> Option<string>): (r: Node)
    ensures root.Text? ==> r == root
    ensures root.Element? ==> && r.Element? && r.tag == root.tag && r.attrs == root.attrs
                              && |r.children| == |root.children|
    ensures root.Element? ==> forall i :: 0 <= i < |r.children| ==>
      Clean(r.children[i], protocolOf) && Kept(root.children[i], r.children[i], protocolOf)
  {
    match root
    case Text(_) => root
    case Element(tag, attrs, children) =>
      var r := Element(tag, attrs, seq(|children|, i requires 0 <= i < |children| => SanitizeNode(children[i], protocolOf)));
      assert forall i :: 0 <= i < |children| ==> r.children[i] == SanitizeNode(children[i], protocolOf);
      forall i | 0 <= i < |children|
        ensures Clean(r.children[i], protocolOf) && Kept(children[i], r.children[i], protocolOf)
      {
        SanitizeClean(children[i], protocolOf);
        SanitizeKeeps(children[i], protocolOf);
      }
      r
  }

  /** `setSafeHTML(element, html)`: the nodes the parser makes of `html` inside
      a bare `div`, after the walker; `parseHtml` is the browser's parser. */
  function SetSafeHtml(html: string, parseHtml: string -> seq<Node>, protocolOf: string -> Option<string>): (r: seq<Node>)
    ensures |r| == |parseHtml(html)|
    ensures forall i :: 0 <= i < |r| ==> Clean(r[i], protocolOf) && Kept(parseHtml(html)[i], r[i], protocolOf)
  {
    SanitizeElement(Element("div", map[], parseHtml(html)), protocolOf).children
  }

  // ---------------------------------------------------------------------------
  // The bot message
  // ---------------------------------------------------------------------------

  /** `escapeHtml(text)`: a text node's content serialised by `innerHTML`,
      which rewrites `&`, `<`, `>` and the no-break space and nothing else. */
  const NoBreakSpace: char := '\U{00A0}'

  function EscapeHtmlChar(c: char): (r: string)
    ensures |r| >= 1
    ensures c != '&' && c != '<' && c != '>' && c != NoBreakSpace ==> r == [c]
  {
    if c == '&' then "&amp;"
    else if c == '<' then "&lt;"
    else if c == '>' then "&gt;"
    else if c == NoBreakSpace then "&nbsp;"
    else [c]
  }

  function EscapeHtml(s: string): (r: string)
    ensures forall i :: 0 <= i < |r| ==> r[i] != '<' && r[i] != '>'
    decreases |s|
  {
    if |s| == 0 then "" else EscapeHtmlChar(s[0]) + EscapeHtml(s[1..])
  }

  /** The character references in a text that holds no tag, decoded as the
      browser's HTML parser decodes them on text `EscapeHtml` wrote: the four
      entities it writes are decoded, anything else is kept. */
  function UnescapeHtml(s: string): string
    decreases |s|
  {
    if |s| == 0 then ""
    else if "&amp;" <= s then "&" + UnescapeHtml(s[5..])
    else if "&lt;" <= s then "<" + UnescapeHtml(s[4..])
    else if "&gt;" <= s then ">" + UnescapeHtml(s[4..])
    else if "&nbsp;" <= s then [NoBreakSpace] + UnescapeHtml(s[6..])
    else [s[0]] + UnescapeHtml(s[1..])
  }

  lemma UnescapeEscapeHtmlChar(c: char, t: string)
    ensures UnescapeHtml(EscapeHtmlChar(c) + t) == [c] + UnescapeHtml(t)
  {
    var e := EscapeHtmlChar(c);
    var s := e + t;
    assert s[|e|..] == t;
    assert s[0] == e[0];
    if c == '&' || c == '<' || c == '>' || c == NoBreakSpace {
      assert s[1] == e[1];
    }
    if c == '&' {
      assert "&amp;" <= s;
    } else if c == '<' {
      assert !("&amp;" <= s) && "&lt;" <= s;
    } else if c == '>' {
      assert !("&amp;" <= s) && !("&lt;" <= s) && "&gt;" <= s;
    } else if c == NoBreakSpace {
      assert !("&amp;" <= s) && !("&lt;" <= s) && !("&gt;" <= s) && "&nbsp;" <= s;
    } else {
      assert s[0] == c && s[1..] == t;
    }
  }

  /** Decoding the references undoes `EscapeHtml`. */
  lemma {:induction false} UnescapeEscapeHtml(s: string)
    ensures UnescapeHtml(EscapeHtml(s)) == s
    decreases |s|
  {
    if |s| > 0 {
      UnescapeEscapeHtmlChar(s[0], EscapeHtml(s[1..]));
      UnescapeEscapeHtml(s[1..]);
      assert [s[0]] + s[1..] == s;
    }
  }

  /** The parser's input-stream preprocessing (section 13.2.3.5 of the HTML
      Living Standard): a CR LF pair and a lone CR each become one LF. */
  function NormalizeNewlines(s: string): (r: string)
    ensures forall i :: 0 <= i < |r| ==> r[i] != '\r'
    decreases |s|
  {
    if |s| == 0 then ""
    else if s[0] == '\r' then "\n" + NormalizeNewlines(if |s| > 1 && s[1] == '\n' then s[2..] else s[1..])
    else [s[0]] + NormalizeNewlines(s[1..])
  }

  /** Tree construction "in body" ignores a U+0000 character token. */
  function DropNul(s: string): (r: string)
    ensures forall i :: 0 <= i < |r| ==> r[i] != '\0'
    decreases |s|
  {
    if |s| == 0 then "" else (if s[0] == '\0' then "" else [s[0]]) + DropNul(s[1..])
  }

  /** The data of the text node the browser builds when `innerHTML` receives
      markup that holds no tag: newlines normalised, references decoded, NULs dropped. */
  function ParsedText(markup: string): string {
    DropNul(UnescapeHtml(NormalizeNewlines(markup)))
  }

  lemma EscapeHtmlCons(c: char, t: string)
    ensures EscapeHtml([c] + t) == EscapeHtmlChar(c) + EscapeHtml(t)
  {
    assert ([c] + t)[1..] == t;
  }

  /** Text without CR passes through the preprocessing unchanged. */
  lemma {:induction false} NormalizePlainPrefix(e: string, t: string)
    requires forall i :: 0 <= i < |e| ==> e[i] != '\r'
    ensures NormalizeNewlines(e + t) == e + NormalizeNewlines(t)
    decreases |e|
  {
    if |e| > 0 {
      assert (e + t)[0] == e[0];
      assert (e + t)[1..] == e[1..] + t;
      NormalizePlainPrefix(e[1..], t);
    } else {
      assert e + t == t;
    }
  }

  /** The rest after a leading CR: the LF of a CR LF pair is consumed with it. */
  function AfterCr(s: string): string
    requires |s| > 0
  {
    if |s| > 1 && s[1] == '\n' then s[2..] else s[1..]
  }

  /** A CR, with the LF that follows it if any, is preprocessed as one LF. */
  lemma NormalizeCrPrefix(x: string)
    ensures NormalizeNewlines("\r" + x) == "\n" + NormalizeNewlines(if |x| > 0 && x[0] == '\n' then x[1..] else x)
  {
    assert ("\r" + x)[1..] == x;
    if |x| > 0 {
      assert ("\r" + x)[1] == x[0];
      assert ("\r" + x)[2..] == x[1..];
    }
  }

  /** Escaping a text starts with LF exactly when the text does, and keeps the rest. */
  lemma EscapeHeadLf(t: string)
    requires |t| > 0
    ensures |EscapeHtml(t)| > 0
    ensures EscapeHtml(t)[0] == '\n' <==> t[0] == '\n'
    ensures t[0] == '\n' ==> EscapeHtml(t)[1..] == EscapeHtml(t[1..])
  {
    var h := EscapeHtmlChar(t[0]);
    assert EscapeHtml(t) == h + EscapeHtml(t[1..]);
    assert EscapeHtml(t)[0] == h[0];
  }

  /** An escaped CR, with its LF if any, is preprocessed as one LF. */
  lemma EscapeCrStep(s: string)
    requires |s| > 0 && s[0] == '\r'
    ensures NormalizeNewlines(EscapeHtml(s)) == "\n" + NormalizeNewlines(EscapeHtml(AfterCr(s)))
  {
    var x := EscapeHtml(s[1..]);
    assert EscapeHtml(s) == "\r" + x;
    NormalizeCrPrefix(x);
    if |s| > 1 {
      EscapeHeadLf(s[1..]);
      assert s[1..][1..] == s[2..];
    }
  }

  /** Escaping touches neither CR nor LF, so it commutes with the preprocessing. */
  lemma {:induction false} NormalizeEscape(s: string)
    ensures NormalizeNewlines(EscapeHtml(s)) == EscapeHtml(NormalizeNewlines(s))
    decreases |s|
  {
    if |s| > 0 {
      if s[0] == '\r' {
        NormalizeEscape(AfterCr(s));
        EscapeCrStep(s);
        EscapeHtmlCons('\n', NormalizeNewlines(AfterCr(s)));
      } else {
        NormalizeEscape(s[1..]);
        EscapeHtmlCons(s[0], s[1..]);
        assert s == [s[0]] + s[1..];
        NormalizePlainPrefix(EscapeHtmlChar(s[0]), EscapeHtml(s[1..]));
        EscapeHtmlCons(s[0], NormalizeNewlines(s[1..]));
      }
    }
  }

  /** What the browser shows for an escaped source title is the title with its
      newlines normalised and its NULs dropped; a title without CR or NUL is
      shown exactly as itself. */
  lemma ParsedEscapedText(s: string)
    ensures ParsedText(EscapeHtml(s)) == DropNul(NormalizeNewlines(s))
    ensures (forall i :: 0 <= i < |s| ==> s[i] != '\r' && s[i] != '\0') ==> ParsedText(EscapeHtml(s)) == s
  {
    NormalizeEscape(s);
    UnescapeEscapeHtml(NormalizeNewlines(s));
    if forall i :: 0 <= i < |s| ==> s[i] != '\r' && s[i] != '\0' {
      NormalizePlainPrefix(s, "");
      assert s + "" == s;
      DropNulPlain(s);
    }
  }

  lemma {:induction false} DropNulPlain(s: string)
    requires forall i :: 0 <= i < |s| ==> s[i] != '\0'
    ensures DropNul(s) == s
    decreases |s|
  {
    if |s| > 0 {
      DropNulPlain(s[1..]);
      assert [s[0]] + s[1..] == s;
    }
  }

  /** A CR LF pair in a title is shown as a single LF. */
  lemma CrLfShownAsLf()
    ensures ParsedText(EscapeHtml("a\r\nb")) == "a\nb"
  {
    ParsedEscapedText("a\r\nb");
    var b := NormalizeNewlines("b");
    assert b == "b" by {
      assert "b"[1..] == "";
    }
    assert "a\r\nb"[1..] == "\r\nb" && "\r\nb"[2..] == "b";
    assert NormalizeNewlines("\r\nb") == "\n" + b;
    assert NormalizeNewlines("a\r\nb") == "a\nb";
    DropNulPlain("a\nb");
  }

  /** A NUL in a title is not shown at all. */
  lemma NulNotShown()
    ensures ParsedText(EscapeHtml("a\0b")) == "ab"
  {
    ParsedEscapedText("a\0b");
    NormalizePlainPrefix("a\0b", "");
    assert "a\0b" + "" == "a\0b";
    assert NormalizeNewlines("a\0b") == "a\0b";
    assert "a\0b"[1..] == "\0b" && "\0b"[1..] == "b";
    DropNulPlain("b");
    assert DropNul("\0b") == "b";
    assert DropNul("a\0b") == "a" + DropNul("\0b");
  }

  /** `Array.prototype.join(sep)`. */
  function JoinWith(parts: seq<string>, sep: string): string {
    if |parts| == 0 then ""
    else if |parts| == 1 then parts[0]
    else parts[0] + sep + JoinWith(parts[1..], sep)
  }

  function EscapeAll(sources: seq<string>): (r: seq<string>)
    ensures |r| == |sources|
    ensures forall i :: 0 <= i < |r| ==> r[i] == EscapeHtml(sources[i])
  {
    seq(|sources|, i requires 0 <= i < |sources| => EscapeHtml(sources[i]))
  }

  const SourcesHeading: string := "<strong>Fuentes:</strong><br>"
  const LineBreak: string := "<br>"

  /** What a bot message shows under its answer. */
  datatype Extra =
    | ContextBlock(nodes: seq<Node>)   // the sanitised accordion, in a `context-container` div
    | SourcesBlock(html: string)       // the plain list, in a `sources` div
    | NoExtra

  datatype BotMessage = BotMessage(answer: string, extra: Extra)

  /** The condition `addBotResponse` shows the accordion under: the context
      HTML is present, not blank after `trim()`, and passes the validator. */
  predicate ShowsContext(resp: EnrichedChatResponse) {
    resp.contextHtml.Some? && !IsBlank(resp.contextHtml.value, JavaScript)
    && IsValidAndSafe(JsString(resp.contextHtml.value))
  }

  /** `addBotResponse(response)`: the answer as text, then the sanitised
      accordion if it may be shown, else the escaped source list if there is
      one, else nothing. */
  function AddBotResponse(resp: EnrichedChatResponse, parseHtml: string -> seq<Node>,
                          protocolOf: string -> Option<string>): (m: BotMessage)
    ensures m.answer == resp.answer
    ensures m.extra.ContextBlock? <==> ShowsContext(resp)
    ensures m.extra.SourcesBlock? <==> !ShowsContext(resp) && |resp.sources| > 0
    ensures m.extra.ContextBlock? ==>
      && |m.extra.nodes| == |parseHtml(resp.contextHtml.value)|
      && forall i :: 0 <= i < |m.extra.nodes| ==> Clean(m.extra.nodes[i], protocolOf)
    ensures m.extra.SourcesBlock? ==>
      m.extra.html == SourcesHeading + JoinWith(EscapeAll(resp.sources), LineBreak)
  {
    var context := resp.contextHtml;
    if context.Some? && Trim(context.value, JavaScript) != "" && IsValidAndSafe(JsString(context.value)) then
      BotMessage(resp.answer, ContextBlock(SetSafeHtml(context.value, parseHtml, protocolOf)))
    else if |resp.sources| > 0 then
      BotMessage(resp.answer, SourcesBlock(SourcesHeading + JoinWith(EscapeAll(resp.sources), LineBreak)))
    else
      BotMessage(resp.answer, NoExtra)
  }

  /** Every `<` of `html` opens a `<br>`. */
  predicate OnlyBreaks(html: string) {
    forall k :: 0 <= k < |html| && html[k] == '<' ==> OccursAt(html, LineBreak, k)
  }

  /** In a list joined with `<br>` from parts without `<`, every `<` opens a `<br>`. */
  lemma {:induction false} OnlyBreakTags(parts: seq<string>)
    requires forall i :: 0 <= i < |parts| ==> forall k :: 0 <= k < |parts[i]| ==> parts[i][k] != '<'
    ensures OnlyBreaks(JoinWith(parts, LineBreak))
  {
    if |parts| == 1 {
      assert JoinWith(parts, LineBreak) == parts[0];
    } else if |parts| > 1 {
      var rest := JoinWith(parts[1..], LineBreak);
      OnlyBreakTags(parts[1..]);
      assert OnlyBreaks(rest);
      var j := JoinWith(parts, LineBreak);
      var n := |parts[0]|;
      assert j == parts[0] + LineBreak + rest;
      forall k | 0 <= k < |j| && j[k] == '<' ensures OccursAt(j, LineBreak, k) {
        if n <= k < n + |LineBreak| {
          assert j[n..n + |LineBreak|] == LineBreak;
          assert k == n by {
            assert j[k] == LineBreak[k - n];
          }
        } else if k >= n + |LineBreak| {
          var k' := k - n - |LineBreak|;
          assert 0 <= k' < |rest| && rest[k'] == j[k];
          assert OccursAt(rest, LineBreak, k');
          assert j[k..k + |LineBreak|] == rest[k'..k' + |LineBreak|];
        }
      }
    }
  }

  /** Markup in a source title never reaches the page as markup: every `<` of
      the list after its heading opens one of the `<br>` separators. */
  lemma SourcesListTags(sources: seq<string>)
    ensures OnlyBreaks(JoinWith(EscapeAll(sources), LineBreak))
  {
    OnlyBreakTags(EscapeAll(sources));
  }

  // ---------------------------------------------------------------------------
  // The submission cycle
  // ---------------------------------------------------------------------------

  const LoadingText: string := "Procesando tu consulta..."
  const ErrorText: string := "Lo siento, hubo un error al procesar tu consulta. Por favor, inténtalo de nuevo."
  const SendingLabel: string := "Enviando..."
  const SendLabel: string := "Enviar"

  /** The `type` half of a posted message's class. */
  const UserKind: string := "user"
  const LoadingKind: string := "loading"
  const ErrorKind: string := "bot error-message"

  /** An entry of the chat window: a text message posted by `addMessage`,
      which carries an id, or a bot message from `addBotResponse`, which has
      none. Ids are random UUIDs in the browser; here they come from a counter. */
  datatype Entry = Posted(id: nat, kind: string, content: string) | Bot(reply: BotMessage)

  /** The input box and the send button. */
  datatype Controls = Controls(inputDisabled: bool, buttonDisabled: bool, buttonLabel: string)

  datatype Client = Client(input: string, controls: Controls, window: seq<Entry>, nextId: nat)

  /** A request in flight: the text sent and the id of the loading message. */
  datatype Pending = Pending(message: string, loadingId: nat)

  /** `setInputEnabled(enabled)`. */
  function SetInputEnabled(enabled: bool): Controls {
    Controls(!enabled, !enabled, if enabled then SendLabel else SendingLabel)
  }

  /** `addMessage(content, type)`: appends a text message under a fresh id and returns the id. */
  function AddMessage(c: Client, content: string, kind: string): (Client, nat) {
    (c.(window := c.window + [Posted(c.nextId, kind, content)], nextId := c.nextId + 1), c.nextId)
  }

  /** The index of the first text message with the given id, as `getElementById` finds it. */
  function FindPosted(w: seq<Entry>, id: nat, from: nat): (r: Option<nat>)
    requires from <= |w|
    ensures r.Some? ==> from <= r.value < |w| && w[r.value].Posted? && w[r.value].id == id
    ensures r.Some? ==> forall m :: from <= m < r.value ==> !(w[m].Posted? && w[m].id == id)
    ensures r.None? ==> forall m :: from <= m < |w| ==> !(w[m].Posted? && w[m].id == id)
    decreases |w| - from
  {
    if from == |w| then None
    else if w[from].Posted? && w[from].id == id then Some(from)
    else FindPosted(w, id, from + 1)
  }

  /** `removeMessage(id)`: the first message with that id leaves the window;
      without one nothing happens. */
  function RemoveMessage(w: seq<Entry>, id: nat): (r: seq<Entry>)
    ensures (exists m :: 0 <= m < |w| && w[m].Posted? && w[m].id == id) ==>
      exists m :: && 0 <= m < |w| && w[m].Posted? && w[m].id == id
                  && (forall k :: 0 <= k < m ==> !(w[k].Posted? && w[k].id == id))
                  && r == w[..m] + w[m + 1..]
    ensures (forall m :: 0 <= m < |w| ==> !(w[m].Posted? && w[m].id == id)) ==> r == w
  {
    match FindPosted(w, id, 0)
    case None => w
    case Some(m) => w[..m] + w[m + 1..]
  }

  /** Removing the loading message keeps the user's message above it. */
  lemma RemoveLoadingKeepsUser()
    ensures RemoveMessage([Posted(0, UserKind, "hi"), Posted(1, LoadingKind, LoadingText)], 1)
      == [Posted(0, UserKind, "hi")]
  {
    var w := [Posted(0, UserKind, "hi"), Posted(1, LoadingKind, LoadingText)];
    var r := RemoveMessage(w, 1);
    assert w[1].Posted? && w[1].id == 1;
    var m :| 0 <= m < |w| && w[m].Posted? && w[m].id == 1 && r == w[..m] + w[m + 1..];
    assert m == 1;
    assert w[..1] + w[2..] == [w[0]];
  }

  /** Ids are fresh and in window order: every id is below the counter, and
      they increase from top to bottom, so no two messages share one. */
  predicate WellNumbered(c: Client) {
    IdsBelow(c.window, c.nextId) && IdsIncrease(c.window)
  }

  predicate IdsBelow(w: seq<Entry>, bound: nat) {
    forall m :: 0 <= m < |w| && w[m].Posted? ==> w[m].id < bound
  }

  predicate IdsIncrease(w: seq<Entry>) {
    forall a, b :: 0 <= a < b < |w| && w[a].Posted? && w[b].Posted? ==> w[a].id < w[b].id
  }

  /** `handleSubmit()` up to the request: the trimmed input is sent unless it
      is empty, in which case nothing changes; otherwise the controls are
      disabled, the input cleared, and the user's text and the loading
      message posted. */
  function Submit(c: Client): (r: (Client, Option<Pending>))
    ensures r.1.None? <==> IsBlank(c.input, JavaScript)
    ensures r.1.None? ==> r.0 == c
    ensures r.1.Some? ==>
      var p := r.1.value;
      && p.message != "" && !IsJsSpace(p.message[0]) && !IsJsSpace(p.message[|p.message| - 1])
      && (exists a: nat :: OccursAt(c.input, p.message, a))
      && p.message == Trim(c.input, JavaScript)
      && r.0.input == "" && r.0.controls == SetInputEnabled(false)
      && p.loadingId == c.nextId + 1
      && r.0.window == c.window + [Posted(c.nextId, UserKind, p.message), Posted(p.loadingId, LoadingKind, LoadingText)]
  {
    var message := Trim(c.input, JavaScript);
    if message == "" then (c, None)
    else
      var c1 := c.(controls := SetInputEnabled(false), input := "");
      var (c2, _) := AddMessage(c1, message, UserKind);
      var (c3, loadingId) := AddMessage(c2, LoadingText, LoadingKind);
      (c3, Some(Pending(message, loadingId)))
  }

  /** The rest of `handleSubmit()` once `fetch` settles: the loading message
      goes, the bot's message or the error message comes, and the controls
      are enabled again whatever happened. */
  function Complete(c: Client, p: Pending, outcome: Result<EnrichedChatResponse, string>,
                    parseHtml: string -> seq<Node>, protocolOf: string -> Option<string>): (r: Client)
    ensures r.controls == SetInputEnabled(true) && r.input == c.input
    ensures r.window == RemoveMessage(c.window, p.loadingId) + [Reply(c.nextId, outcome, parseHtml, protocolOf)]
    ensures r.nextId == if outcome.Success? then c.nextId else c.nextId + 1
  {
    var c1 := c.(window := RemoveMessage(c.window, p.loadingId));
    var c2 :=
      match outcome
      case Success(resp) => c1.(window := c1.window + [Bot(AddBotResponse(resp, parseHtml, protocolOf))])
      case Failure(_) => AddMessage(c1, ErrorText, ErrorKind).0;
    c2.(controls := SetInputEnabled(true))
  }

  /** What a settled request leaves at the bottom of the window. */
  function Reply(id: nat, outcome: Result<EnrichedChatResponse, string>,
                 parseHtml: string -> seq<Node>, protocolOf: string -> Option<string>): Entry
  {
    match outcome
    case Success(resp) => Bot(AddBotResponse(resp, parseHtml, protocolOf))
    case Failure(_) => Posted(id, ErrorKind, ErrorText)
  }

  /** Removing one entry keeps the ids increasing and below the bound. */
  lemma RemoveAtKeepsNumbering(w: seq<Entry>, m: nat, bound: nat)
    requires m < |w| && IdsIncrease(w) && IdsBelow(w, bound)
    ensures IdsIncrease(w[..m] + w[m + 1..]) && IdsBelow(w[..m] + w[m + 1..], bound)
  {
    var r := w[..m] + w[m + 1..];
    forall a, b | 0 <= a < b < |r| && r[a].Posted? && r[b].Posted? ensures r[a].id < r[b].id {
      var a' := if a < m then a else a + 1;
      var b' := if b < m then b else b + 1;
      assert r[a] == w[a'] && r[b] == w[b'];
    }
    forall k | 0 <= k < |r| && r[k].Posted? ensures r[k].id < bound {
      assert r[k] == w[if k < m then k else k + 1];
    }
  }

  lemma RemoveKeepsNumbering(w: seq<Entry>, id: nat, bound: nat)
    requires IdsIncrease(w) && IdsBelow(w, bound)
    ensures IdsIncrease(RemoveMessage(w, id)) && IdsBelow(RemoveMessage(w, id), bound)
  {
    match FindPosted(w, id, 0)
    case None =>
    case Some(m) => RemoveAtKeepsNumbering(w, m, bound);
  }

  /** Posting a message under the counter's id keeps the numbering. */
  lemma AddMessageNumbered(c: Client, content: string, kind: string)
    requires WellNumbered(c)
    ensures WellNumbered(AddMessage(c, content, kind).0)
  {
  }

  /** `handleSubmit()` keeps the numbering up to the request. */
  lemma SubmitNumbered(c: Client)
    requires WellNumbered(c)
    ensures WellNumbered(Submit(c).0)
  {
    var message := Trim(c.input, JavaScript);
    if message != "" {
      var c1 := c.(controls := SetInputEnabled(false), input := "");
      AddMessageNumbered(c1, message, UserKind);
      AddMessageNumbered(AddMessage(c1, message, UserKind).0, LoadingText, LoadingKind);
    }
  }

  /** Settling any request keeps the numbering, whatever the outcome. */
  lemma CompleteNumbered(c: Client, p: Pending, outcome: Result<EnrichedChatResponse, string>,
                         parseHtml: string -> seq<Node>, protocolOf: string -> Option<string>)
    requires WellNumbered(c)
    ensures WellNumbered(Complete(c, p, outcome, parseHtml, protocolOf))
  {
    RemoveKeepsNumbering(c.window, p.loadingId, c.nextId);
    var c1 := c.(window := RemoveMessage(c.window, p.loadingId));
    if outcome.Failure? {
      AddMessageNumbered(c1, ErrorText, ErrorKind);
    }
  }

  /** A full exchange from a well-numbered window: the window gains exactly
      the user's trimmed text and the reply (the loading message is gone),
      the input is enabled again, and an empty submission changes nothing. */
  lemma SubmitThenComplete(c: Client, outcome: Result<EnrichedChatResponse, string>,
                           parseHtml: string -> seq<Node>, protocolOf: string -> Option<string>)
    requires WellNumbered(c)
    ensures Submit(c).1.Some? ==>
      var c2 := Complete(Submit(c).0, Submit(c).1.value, outcome, parseHtml, protocolOf);
      && c2.window == c.window + [Posted(c.nextId, UserKind, Trim(c.input, JavaScript)),
                                  Reply(c.nextId + 2, outcome, parseHtml, protocolOf)]
      && c2.controls == SetInputEnabled(true) && c2.input == ""
  {
    var (c1, pending) := Submit(c);
    if pending.Some? {
      var p := pending.value;
      var user := Posted(c.nextId, UserKind, p.message);
      var w := c1.window;
      assert w == (c.window + [user]) + [Posted(p.loadingId, LoadingKind, LoadingText)];
      assert FindPosted(w, p.loadingId, 0) == Some(|w| - 1) by {
        LoadingIsFresh(c.window + [user], Posted(p.loadingId, LoadingKind, LoadingText), c.nextId + 1);
      }
      assert RemoveMessage(w, p.loadingId) == c.window + [user];
    }
  }

  /** With distinct ids, settling a request leaves no message carrying the
      loading message's id above the reply. */
  lemma CompleteRemovesLoading(c: Client, p: Pending, outcome: Result<EnrichedChatResponse, string>,
                               parseHtml: string -> seq<Node>, protocolOf: string -> Option<string>)
    requires IdsIncrease(c.window)
    ensures var w := Complete(c, p, outcome, parseHtml, protocolOf).window;
      forall k :: 0 <= k < |w| - 1 ==> !(w[k].Posted? && w[k].id == p.loadingId)
  {
    var w0 := c.window;
    var w := Complete(c, p, outcome, parseHtml, protocolOf).window;
    match FindPosted(w0, p.loadingId, 0)
    case None =>
      assert RemoveMessage(w0, p.loadingId) == w0;
      assert forall k :: 0 <= k < |w| - 1 ==> w[k] == w0[k];
    case Some(m) =>
      var r := w0[..m] + w0[m + 1..];
      assert RemoveMessage(w0, p.loadingId) == r;
      assert w[..|w| - 1] == r;
      forall k | 0 <= k < |w| - 1 ensures !(w[k].Posted? && w[k].id == p.loadingId) {
        assert w[k] == r[k];
        var k' := if k < m then k else k + 1;
        assert r[k] == w0[k'];
      }
  }

  /** The first entry carrying a fresh id is the one appended last. */
  lemma {:induction false} LoadingIsFresh(w: seq<Entry>, e: Entry, id: nat)
    requires e.Posted? && e.id == id
    requires forall m :: 0 <= m < |w| && w[m].Posted? ==> w[m].id < id
    ensures FindPosted(w + [e], id, 0) == Some(|w|)
  {
    assert (w + [e])[|w|] == e;
  }

  /** The request body passes the server's length check iff it is at most
      1000 characters: after the guard it is never too short. */
  lemma SubmittedTextIsNeverTooShort(c: Client)
    ensures Submit(c).1.Some? ==>
      && ValidateChatQuery(Submit(c).1.value.message) != Failure(TooShort)
      && (ValidateChatQuery(Submit(c).1.value.message).Success? <==> |Submit(c).1.value.message| <= MaxQueryLength)
  {
  }
}
