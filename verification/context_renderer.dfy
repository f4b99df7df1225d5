/** The accordion renderer (utils/context_renderer.py): turns document sources
    into a tree of Air components (three nested levels of <details>), and a
    chunk's text into components through a small Markdown subset: `#` to
    `####` headings, `**bold**`, `*italic*` and line breaks. Every emitted
    text goes through `html.escape`. */
module ContextRenderer {
  import opened Optional
  import opened Strings
  import opened Schemas
  import HtmlEscape
  import RegexSplit

  // ---------------------------------------------------------------------------
  // Components
  // ---------------------------------------------------------------------------

  /** The Air component kinds the renderer builds. */
  datatype Tag = Div | Details | Summary | Strong | Em | Span | A | Br | H1 | H2 | H3 | H4

  /** An Air component (tag, `class_`, further attributes in order, children)
      or a string child. Turning the tree into HTML is the library's job and
      is not modelled. */
  datatype Node =
    | Text(s: string)
    | Elem(tag: Tag, cls: string, attrs: seq<(string, string)>, children: seq<Node>)

  /** A component holding one string, as `Strong(s)` or `H2(s)`. */
  function Wrap(tag: Tag, s: string): Node {
    Elem(tag, "", [], [Text(s)])
  }

  const LineBreak: Node := Elem(Br, "", [], [])

  // ---------------------------------------------------------------------------
  // Reading the Markdown source back out of the components
  // ---------------------------------------------------------------------------

  /** The Markdown a component was made from: escaped text is decoded and the
      markup characters the renderer consumed are put back. */
  function NodeSource(n: Node): string {
    match n
    case Text(e) => HtmlEscape.Unescape(e)
    case Elem(tag, _, _, children) =>
      if tag == Br then "\n"
      else if |children| == 1 && children[0].Text? then
        var inner := HtmlEscape.Unescape(children[0].s);
        match tag
        case Strong => "**" + inner + "**"
        case Em => "*" + inner + "*"
        case H1 => "# " + inner
        case H2 => "## " + inner
        case H3 => "### " + inner
        case H4 => "#### " + inner
        case _ => ""
      else ""
  }

  function SourceText(ns: seq<Node>): string
    decreases |ns|
  {
    if |ns| == 0 then "" else NodeSource(ns[0]) + SourceText(ns[1..])
  }

  lemma {:induction false} SourceTextAppend(a: seq<Node>, b: seq<Node>)
    ensures SourceText(a + b) == SourceText(a) + SourceText(b)
    decreases |a|
  {
    if |a| > 0 {
      assert (a + b)[0] == a[0];
      assert (a + b)[1..] == a[1..] + b;
      SourceTextAppend(a[1..], b);
    } else {
      assert a + b == b;
    }
  }

  // ---------------------------------------------------------------------------
  // Inline formatting
  // ---------------------------------------------------------------------------

  function EscapedText(s: string): Node {
    Text(HtmlEscape.Escape(s))
  }

  /** The pieces of an italic split: non-empty text at even indices, `Em` at odd ones. */
  function ItalicPieces(parts: seq<string>, even: bool): seq<Node>
    decreases |parts|
  {
    if |parts| == 0 then []
    else
      (if even then (if parts[0] != "" then [EscapedText(parts[0])] else [])
       else [Wrap(Em, HtmlEscape.Escape(parts[0]))])
      + ItalicPieces(parts[1..], !even)
  }

  /** The pieces of a bold split: even indices are split again for italics,
      odd indices become `Strong`. */
  function BoldPieces(parts: seq<string>, even: bool): seq<Node>
    decreases |parts|
  {
    if |parts| == 0 then []
    else
      (if even then ItalicPieces(RegexSplit.ReSplit(RegexSplit.Italic, parts[0], 0), true)
       else [Wrap(Strong, HtmlEscape.Escape(parts[0]))])
      + BoldPieces(parts[1..], !even)
  }

  /** `_process_inline_formatting`: a line without headings becomes escaped
      text, `Strong` and `Em` components. */
  function InlineFormatting(text: string): (r: seq<Node>)
    ensures text == "" ==> r == []
    ensures text != "" && IsBlank(text, Python) ==> r == [Text(text)]
    ensures !IsBlank(text, Python) ==> |r| > 0
  {
    if IsBlank(text, Python) then (if text == "" then [] else [Text(text)])
    else
      var pieces := BoldPieces(RegexSplit.ReSplit(RegexSplit.Bold, text, 0), true);
      if pieces == [] then [EscapedText(text)] else pieces
  }

  lemma {:induction false} ItalicPiecesSource(parts: seq<string>, even: bool)
    ensures SourceText(ItalicPieces(parts, even)) == RegexSplit.RejoinFrom(RegexSplit.Italic, parts, even)
    decreases |parts|
  {
    if |parts| > 0 {
      var head := if even then (if parts[0] != "" then [EscapedText(parts[0])] else [])
                  else [Wrap(Em, HtmlEscape.Escape(parts[0]))];
      SourceTextAppend(head, ItalicPieces(parts[1..], !even));
      ItalicPiecesSource(parts[1..], !even);
      HtmlEscape.UnescapeEscape(parts[0]);
      if head != [] {
        assert SourceText(head) == NodeSource(head[0]) + SourceText([]);
      }
    }
  }

  lemma {:induction false} BoldPiecesSource(parts: seq<string>, even: bool)
    ensures SourceText(BoldPieces(parts, even)) == RegexSplit.RejoinFrom(RegexSplit.Bold, parts, even)
    decreases |parts|
  {
    if |parts| > 0 {
      var head := if even then ItalicPieces(RegexSplit.ReSplit(RegexSplit.Italic, parts[0], 0), true)
                  else [Wrap(Strong, HtmlEscape.Escape(parts[0]))];
      SourceTextAppend(head, BoldPieces(parts[1..], !even));
      BoldPiecesSource(parts[1..], !even);
      if even {
        ItalicPiecesSource(RegexSplit.ReSplit(RegexSplit.Italic, parts[0], 0), true);
        RegexSplit.RejoinReSplit(RegexSplit.Italic, parts[0], 0);
        assert parts[0][0..] == parts[0];
      } else {
        HtmlEscape.UnescapeEscape(parts[0]);
        assert SourceText(head) == NodeSource(head[0]) + SourceText([]);
      }
    }
  }

  lemma BlankHasNoAmpersand(text: string)
    requires IsBlank(text, Python)
    ensures forall i :: 0 <= i < |text| ==> text[i] != '&'
  {
    forall i | 0 <= i < |text| ensures text[i] != '&' {
      assert IsPySpace(text[i]);
    }
  }

  /** Inline formatting loses nothing: decoding the components and restoring
      the `**` and `*` markers gives back the line. */
  lemma InlineFormattingLossless(text: string)
    ensures SourceText(InlineFormatting(text)) == text
  {
    if IsBlank(text, Python) {
      if text != "" {
        BlankHasNoAmpersand(text);
        HtmlEscape.UnescapePlain(text);
        assert SourceText([Text(text)]) == NodeSource(Text(text)) + SourceText([]);
      }
    } else {
      var parts := RegexSplit.ReSplit(RegexSplit.Bold, text, 0);
      BoldPiecesSource(parts, true);
      RegexSplit.RejoinReSplit(RegexSplit.Bold, text, 0);
      assert text[0..] == text;
      HtmlEscape.UnescapeEscape(text);
      assert SourceText([EscapedText(text)]) == NodeSource(EscapedText(text)) + SourceText([]);
    }
  }

  lemma {:induction false} ItalicPiecesShape(parts: seq<string>, even: bool)
    ensures forall k :: 0 <= k < |ItalicPieces(parts, even)| ==>
      ItalicPieces(parts, even)[k].Text? || ItalicPieces(parts, even)[k].tag == Em
    decreases |parts|
  {
    if |parts| > 0 {
      ItalicPiecesShape(parts[1..], !even);
    }
  }

  /** Every inline component is escaped text, `Strong` or `Em`. */
  lemma {:induction false} BoldPiecesShape(parts: seq<string>, even: bool)
    ensures forall k :: 0 <= k < |BoldPieces(parts, even)| ==>
      BoldPieces(parts, even)[k].Text? || BoldPieces(parts, even)[k].tag in {Strong, Em}
    decreases |parts|
  {
    if |parts| > 0 {
      BoldPiecesShape(parts[1..], !even);
      if even {
        ItalicPiecesShape(RegexSplit.ReSplit(RegexSplit.Italic, parts[0], 0), true);
      }
    }
  }

  /** The texts of the `tag` components of `ns` that hold one text, in order. */
  function Captured(tag: Tag, ns: seq<Node>): seq<string>
    decreases |ns|
  {
    if |ns| == 0 then []
    else
      (if ns[0].Elem? && ns[0].tag == tag && |ns[0].children| == 1 && ns[0].children[0].Text?
       then [ns[0].children[0].s] else [])
      + Captured(tag, ns[1..])
  }

  lemma {:induction false} CapturedAppend(tag: Tag, a: seq<Node>, b: seq<Node>)
    ensures Captured(tag, a + b) == Captured(tag, a) + Captured(tag, b)
    decreases |a|
  {
    if |a| > 0 {
      assert (a + b)[0] == a[0];
      assert (a + b)[1..] == a[1..] + b;
      CapturedAppend(tag, a[1..], b);
    } else {
      assert a + b == b;
    }
  }

  /** The parts of a split at its capture (odd) indices; `even` says whether
      `parts[0]` sits at an even index. */
  function OddParts(parts: seq<string>, even: bool): seq<string>
    decreases |parts|
  {
    if |parts| == 0 then [] else (if even then [] else [parts[0]]) + OddParts(parts[1..], !even)
  }

  /** The parts of a split between the matches (at even indices). */
  function EvenParts(parts: seq<string>, even: bool): seq<string>
    decreases |parts|
  {
    if |parts| == 0 then [] else (if even then [parts[0]] else []) + EvenParts(parts[1..], !even)
  }

  function EscapeEach(xs: seq<string>): seq<string>
    decreases |xs|
  {
    if |xs| == 0 then [] else [HtmlEscape.Escape(xs[0])] + EscapeEach(xs[1..])
  }

  lemma {:induction false} EscapeEachAppend(a: seq<string>, b: seq<string>)
    ensures EscapeEach(a + b) == EscapeEach(a) + EscapeEach(b)
    decreases |a|
  {
    if |a| > 0 {
      assert (a + b)[0] == a[0];
      assert (a + b)[1..] == a[1..] + b;
      EscapeEachAppend(a[1..], b);
    } else {
      assert a + b == b;
    }
  }

  /** The italic captures of each text in turn. */
  function ItalicCaptures(texts: seq<string>): seq<string>
    decreases |texts|
  {
    if |texts| == 0 then []
    else OddParts(RegexSplit.ReSplit(RegexSplit.Italic, texts[0], 0), true) + ItalicCaptures(texts[1..])
  }

  /** An italic split yields one `Em` per capture, holding it escaped, and no `Strong`. */
  lemma {:induction false} ItalicPiecesCaptured(parts: seq<string>, even: bool)
    ensures Captured(Em, ItalicPieces(parts, even)) == EscapeEach(OddParts(parts, even))
    ensures Captured(Strong, ItalicPieces(parts, even)) == []
    decreases |parts|
  {
    if |parts| > 0 {
      var head := if even then (if parts[0] != "" then [EscapedText(parts[0])] else [])
                  else [Wrap(Em, HtmlEscape.Escape(parts[0]))];
      var odd: seq<string> := if even then [] else [parts[0]];
      ItalicPiecesCaptured(parts[1..], !even);
      CapturedAppend(Em, head, ItalicPieces(parts[1..], !even));
      CapturedAppend(Strong, head, ItalicPieces(parts[1..], !even));
      EscapeEachAppend(odd, OddParts(parts[1..], !even));
      if head != [] {
        assert Captured(Em, head) == Captured(Em, [head[0]]);
        assert Captured(Em, [head[0]]) == (if even then [] else [HtmlEscape.Escape(parts[0])]) + Captured(Em, []);
        assert Captured(Strong, [head[0]]) == [] + Captured(Strong, []);
      }
      if !even {
        assert EscapeEach(odd) == [HtmlEscape.Escape(parts[0])] + EscapeEach([]);
      }
    }
  }

  /** A bold split yields one `Strong` per capture, holding it escaped, and
      one `Em` per italic capture of the texts between the bold matches. */
  lemma {:induction false} BoldPiecesCaptured(parts: seq<string>, even: bool)
    ensures Captured(Strong, BoldPieces(parts, even)) == EscapeEach(OddParts(parts, even))
    ensures Captured(Em, BoldPieces(parts, even)) == EscapeEach(ItalicCaptures(EvenParts(parts, even)))
    decreases |parts|
  {
    if |parts| > 0 {
      var italic := RegexSplit.ReSplit(RegexSplit.Italic, parts[0], 0);
      var head := if even then ItalicPieces(italic, true)
                  else [Wrap(Strong, HtmlEscape.Escape(parts[0]))];
      var tail := BoldPieces(parts[1..], !even);
      BoldPiecesCaptured(parts[1..], !even);
      CapturedAppend(Em, head, tail);
      CapturedAppend(Strong, head, tail);
      var evens := EvenParts(parts[1..], !even);
      if even {
        ItalicPiecesCaptured(italic, true);
        EscapeEachAppend([], OddParts(parts[1..], !even));
        assert ([parts[0]] + evens)[0] == parts[0];
        assert ([parts[0]] + evens)[1..] == evens;
        assert ItalicCaptures([parts[0]] + evens) == OddParts(italic, true) + ItalicCaptures(evens);
        EscapeEachAppend(OddParts(italic, true), ItalicCaptures(evens));
      } else {
        assert Captured(Strong, head) == [HtmlEscape.Escape(parts[0])] + Captured(Strong, []);
        assert Captured(Em, head) == [] + Captured(Em, []);
        EscapeEachAppend([parts[0]], OddParts(parts[1..], !even));
        assert EscapeEach([parts[0]]) == [HtmlEscape.Escape(parts[0])] + EscapeEach([]);
        assert [] + evens == evens;
      }
    }
  }

  /** A text without `*` is not split by either pattern. */
  lemma NoStarSplit(p: RegexSplit.Pattern, s: string)
    requires forall i :: 0 <= i < |s| ==> s[i] != '*'
    ensures RegexSplit.ReSplit(p, s, 0) == [s]
  {
    assert RegexSplit.FindMatch(p, s, 0).None?;
    assert s[0..] == s;
  }

  /** The `Strong` components of a line hold its bold captures escaped, and its
      `Em` components the italic captures of the text between them. */
  lemma InlineMarkup(text: string)
    ensures var bold := RegexSplit.ReSplit(RegexSplit.Bold, text, 0);
      && Captured(Strong, InlineFormatting(text)) == EscapeEach(OddParts(bold, true))
      && Captured(Em, InlineFormatting(text)) == EscapeEach(ItalicCaptures(EvenParts(bold, true)))
  {
    var bold := RegexSplit.ReSplit(RegexSplit.Bold, text, 0);
    var r := InlineFormatting(text);
    if IsBlank(text, Python) {
      forall i | 0 <= i < |text| ensures text[i] != '*' {
        assert IsPySpace(text[i]);
      }
      NoStarSplit(RegexSplit.Bold, text);
      NoStarSplit(RegexSplit.Italic, text);
      assert OddParts([text], true) == [] + OddParts([], false);
      assert EvenParts([text], true) == [text] + EvenParts([], false);
      assert ItalicCaptures([text]) == OddParts([text], true) + ItalicCaptures([]);
      if text != "" {
        assert Captured(Strong, r) == [] + Captured(Strong, []);
        assert Captured(Em, r) == [] + Captured(Em, []);
      }
    } else {
      BoldPiecesCaptured(bold, true);
      if BoldPieces(bold, true) == [] {
        assert Captured(Strong, r) == [] + Captured(Strong, []);
        assert Captured(Em, r) == [] + Captured(Em, []);
      }
    }
  }

  /** A line without `*` is its escaped text alone. */
  lemma PlainLine(text: string)
    requires text != "" && forall i :: 0 <= i < |text| ==> text[i] != '*'
    ensures InlineFormatting(text) == [EscapedText(text)]
  {
    if IsBlank(text, Python) {
      forall i | 0 <= i < |text| ensures !HtmlEscape.IsSpecial(text[i]) {
        assert IsPySpace(text[i]);
      }
    } else {
      NoStarSplit(RegexSplit.Bold, text);
      NoStarSplit(RegexSplit.Italic, text);
      assert BoldPieces([text], true) == ItalicPieces([text], true) + BoldPieces([], false);
      assert ItalicPieces([text], true) == [EscapedText(text)] + ItalicPieces([], false);
    }
  }

  /** The odd-indexed parts of the bold split become `Strong`, the captures of
      the italic split of an even part become `Em`, and a `**x**` line is one
      `Strong` holding the escaped `x`. */
  lemma BoldLine(x: string)
    requires x != "" && forall i :: 0 <= i < |x| ==> x[i] != '*' && x[i] != '\n'
    ensures InlineFormatting("**" + x + "**") == [Wrap(Strong, HtmlEscape.Escape(x))]
  {
    var text := "**" + x + "**";
    assert !IsBlank(text, Python) by { assert text[0] == '*'; }
    BoldSplitOfWrapped(x);
    BoldPiecesOfWrapped(x);
    var pieces := BoldPieces(RegexSplit.ReSplit(RegexSplit.Bold, text, 0), true);
    assert pieces == [Wrap(Strong, HtmlEscape.Escape(x))];
    assert InlineFormatting(text) == pieces;
  }

  lemma BoldSplitOfWrapped(x: string)
    requires forall i :: 0 <= i < |x| ==> x[i] != '*' && x[i] != '\n'
    ensures RegexSplit.ReSplit(RegexSplit.Bold, "**" + x + "**", 0) == ["", x, ""]
  {
    var text := "**" + x + "**";
    var m := RegexSplit.Match(0, 2, |x| + 2, |x| + 4);
    BoldMatchOfWrapped(x);
    assert RegexSplit.FindMatch(RegexSplit.Bold, text, 0) == Some(m);
    NoMatchAtEnd(RegexSplit.Bold, text);
    assert text[0..0] == "" && text[2..|x| + 2] == x;
  }

  lemma BoldMatchOfWrapped(x: string)
    requires forall i :: 0 <= i < |x| ==> x[i] != '*' && x[i] != '\n'
    ensures RegexSplit.MatchAt(RegexSplit.Bold, "**" + x + "**", 0) == Some(RegexSplit.Match(0, 2, |x| + 2, |x| + 4))
  {
    var text := "**" + x + "**";
    assert RegexSplit.StarPairAt(text, 0);
    assert RegexSplit.StarPairAt(text, |x| + 2);
    forall m | 2 <= m < |x| + 2 ensures text[m] != '*' && text[m] != '\n' {
      assert text[m] == x[m - 2];
    }
    BoldCloseSkips(text, 2, |x| + 2);
  }

  lemma BoldPiecesOfWrapped(x: string)
    ensures BoldPieces(["", x, ""], true) == [Wrap(Strong, HtmlEscape.Escape(x))]
  {
    NoMatchInEmpty(RegexSplit.Italic);
    assert ItalicPieces([""], true) == [];
    assert BoldPieces([""], true) == [];
    assert ["", x, ""][1..] == [x, ""];
    assert [x, ""][1..] == [""];
    assert BoldPieces([x, ""], false) == [Wrap(Strong, HtmlEscape.Escape(x))] + BoldPieces([""], true);
  }

  lemma BoldCloseSkips(s: string, j: nat, k: nat)
    requires j <= k && RegexSplit.StarPairAt(s, k)
    requires forall m :: j <= m < k ==> s[m] != '*' && s[m] != '\n'
    ensures RegexSplit.BoldClose(s, j) == Some(k)
    decreases k - j
  {
    if j < k {
      BoldCloseSkips(s, j + 1, k);
    }
  }

  lemma NoMatchAtEnd(p: RegexSplit.Pattern, s: string)
    ensures RegexSplit.MatchAt(p, s, |s|).None?
    ensures RegexSplit.ReSplit(p, s, |s|) == [""]
  {
    assert !RegexSplit.StarPairAt(s, |s|);
    assert RegexSplit.FindMatch(p, s, |s|).None?;
    assert s[|s|..] == "";
  }

  lemma NoMatchInEmpty(p: RegexSplit.Pattern)
    ensures RegexSplit.ReSplit(p, "", 0) == [""]
  {
    NoMatchAtEnd(p, "");
  }

  // ---------------------------------------------------------------------------
  // Lines and headings
  // ---------------------------------------------------------------------------

  /** Heading level of a line: prefixes are tried from `#### ` down to `# `. */
  function HeadingLevel(line: string): (k: nat)
    ensures k <= 4
    ensures k > 0 ==> k + 1 <= |line| && line[k] == ' ' && forall i :: 0 <= i < k ==> line[i] == '#'
    ensures k == 0 ==> !("# " <= line) && !("## " <= line) && !("### " <= line) && !("#### " <= line)
  {
    if "#### " <= line then 4
    else if "### " <= line then 3
    else if "## " <= line then 2
    else if "# " <= line then 1
    else 0
  }

  function HeadingTag(k: nat): Tag
    requires 1 <= k <= 4
  {
    if k == 1 then H1 else if k == 2 then H2 else if k == 3 then H3 else H4
  }

  /** The components of one line: a heading holding the escaped rest of the
      line, or the inline formatting of the line. */
  function LineComponents(line: string): (r: seq<Node>)
    ensures "#### " <= line ==> r == [Wrap(H4, HtmlEscape.Escape(line[5..]))]
    ensures HeadingLevel(line) == 0 ==> r == InlineFormatting(line)
  {
    var k := HeadingLevel(line);
    if k > 0 then [Wrap(HeadingTag(k), HtmlEscape.Escape(line[k + 1..]))]
    else InlineFormatting(line)
  }

  /** A heading reads back with the marks its line started with. */
  lemma HeadingSource(line: string, k: nat, e: string)
    requires 1 <= k <= 4 && k == HeadingLevel(line)
    ensures NodeSource(Wrap(HeadingTag(k), e)) == line[..k + 1] + HtmlEscape.Unescape(e)
  {
    var marks := line[..k + 1];
    if k == 1 {
      assert marks == "# ";
    } else if k == 2 {
      assert marks == "## ";
    } else if k == 3 {
      assert marks == "### ";
    } else {
      assert marks == "#### ";
    }
  }

  lemma HeadingLossless(line: string, k: nat)
    requires 1 <= k <= 4 && k == HeadingLevel(line)
    ensures SourceText([Wrap(HeadingTag(k), HtmlEscape.Escape(line[k + 1..]))]) == line
  {
    HeadingSource(line, k, HtmlEscape.Escape(line[k + 1..]));
    ReadsBack(Wrap(HeadingTag(k), HtmlEscape.Escape(line[k + 1..])), line, k + 1);
  }

  /** A node that puts back the first `k` characters of `line` around the
      escaped rest reads back to the line. */
  lemma ReadsBack(n: Node, line: string, k: nat)
    requires k <= |line|
    requires NodeSource(n) == line[..k] + HtmlEscape.Unescape(HtmlEscape.Escape(line[k..]))
    ensures SourceText([n]) == line
  {
    HtmlEscape.UnescapeEscape(line[k..]);
    SingleSource(n);
    assert line == line[..k] + line[k..];
  }

  lemma SingleSource(n: Node)
    ensures SourceText([n]) == NodeSource(n)
  {
    assert SourceText([n]) == NodeSource(n) + SourceText([]);
  }

  /** A line's components read back to the line. */
  lemma LineComponentsLossless(line: string)
    ensures SourceText(LineComponents(line)) == line
  {
    var k := HeadingLevel(line);
    if k > 0 {
      HeadingLossless(line, k);
    } else {
      InlineFormattingLossless(line);
    }
  }

  /** No line produces a line break of its own. */
  lemma LineComponentsHaveNoBreak(line: string)
    ensures forall k :: 0 <= k < |LineComponents(line)| ==> LineComponents(line)[k] != LineBreak
  {
    if HeadingLevel(line) == 0 && !IsBlank(line, Python) {
      BoldPiecesShape(RegexSplit.ReSplit(RegexSplit.Bold, line, 0), true);
    }
  }

  // ---------------------------------------------------------------------------
  // Multi-line Markdown
  // ---------------------------------------------------------------------------

  /** The line loop as the source writes it: a line break follows every line
      whose VALUE differs from the last line, so a non-last line that repeats
      the last line gets none. */
  function LinesAsWritten(lines: seq<string>, last: string): seq<Node>
    decreases |lines|
  {
    if |lines| == 0 then []
    else LineComponents(lines[0]) + (if lines[0] != last then [LineBreak] else []) + LinesAsWritten(lines[1..], last)
  }

  /** `_process_markdown_to_components` exactly as written. */
  function MarkdownAsWritten(text: string): (r: seq<Node>)
    ensures text == "" ==> r == [Text("")]
  {
    if text == "" then [Text(text)]
    else
      var lines := Split(text, '\n');
      LinesAsWritten(lines, lines[|lines| - 1])
  }

  /** The line loop as intended: a line break after every line but the final one. */
  function LinesWithBreaks(lines: seq<string>): seq<Node>
    decreases |lines|
  {
    if |lines| == 0 then []
    else if |lines| == 1 then LineComponents(lines[0])
    else LineComponents(lines[0]) + [LineBreak] + LinesWithBreaks(lines[1..])
  }

  /** `_process_markdown_to_components` with the line-break rule by position. */
  function MarkdownComponents(text: string): (r: seq<Node>)
    ensures text == "" ==> r == [Text("")]
  {
    if text == "" then [Text(text)] else LinesWithBreaks(Split(text, '\n'))
  }

  lemma {:induction false} LinesWithBreaksLossless(lines: seq<string>)
    ensures SourceText(LinesWithBreaks(lines)) == Join(lines, '\n')
    decreases |lines|
  {
    if |lines| == 1 {
      LineComponentsLossless(lines[0]);
    } else if |lines| > 1 {
      LineComponentsLossless(lines[0]);
      LinesWithBreaksLossless(lines[1..]);
      SourceTextAppend(LineComponents(lines[0]) + [LineBreak], LinesWithBreaks(lines[1..]));
      SourceTextAppend(LineComponents(lines[0]), [LineBreak]);
      assert SourceText([LineBreak]) == "\n";
    }
  }

  /** With the positional rule the components read back to the whole text:
      every line and every line break survives. */
  lemma MarkdownLossless(text: string)
    ensures SourceText(MarkdownComponents(text)) == text
  {
    if text == "" {
      assert SourceText([Text("")]) == NodeSource(Text("")) + SourceText([]);
    } else {
      LinesWithBreaksLossless(Split(text, '\n'));
      JoinSplit(text, '\n');
    }
  }

  /** The two rules agree whenever no earlier line repeats the last one. */
  lemma {:induction false} LinesAgree(lines: seq<string>, last: string)
    requires |lines| >= 1 && lines[|lines| - 1] == last
    requires forall i :: 0 <= i < |lines| - 1 ==> lines[i] != last
    ensures LinesAsWritten(lines, last) == LinesWithBreaks(lines)
    decreases |lines|
  {
    if |lines| == 1 {
      assert LinesAsWritten(lines[1..], last) == [];
    } else {
      LinesAgree(lines[1..], last);
    }
  }

  lemma MarkdownAgreesWithoutRepeatedLastLine(text: string)
    requires text != ""
    requires forall i :: 0 <= i < |Split(text, '\n')| - 1 ==>
      Split(text, '\n')[i] != Split(text, '\n')[|Split(text, '\n')| - 1]
    ensures MarkdownAsWritten(text) == MarkdownComponents(text)
  {
    var lines := Split(text, '\n');
    LinesAgree(lines, lines[|lines| - 1]);
  }

  lemma SplitRepeatedLine()
    ensures Split("a\na", '\n') == ["a", "a"]
  {
    assert Split("a", '\n') == ["a"] by { SplitNoSep("a", '\n'); }
    assert "a\na" == "a" + ['\n'] + "a";
    SplitAfterFirst("a", "a", '\n');
  }

  lemma RepeatedLineAsWritten()
    ensures SourceText(LinesAsWritten(["a", "a"], "a")) == "aa"
  {
    var lines := ["a", "a"];
    LineComponentsLossless("a");
    assert lines[1..] == ["a"];
    assert ["a"][1..] == [];
    assert LinesAsWritten(lines, "a") == LineComponents("a") + LinesAsWritten(["a"], "a");
    assert LinesAsWritten(["a"], "a") == LineComponents("a") + LinesAsWritten([], "a");
    SourceTextAppend(LineComponents("a"), LineComponents("a"));
    assert LineComponents("a") + [] == LineComponents("a");
  }

  /** The source's rule drops the break of "a\na": the two lines run together. */
  lemma MarkdownAsWrittenDropsBreak()
    ensures SourceText(MarkdownAsWritten("a\na")) == "aa"
    ensures SourceText(MarkdownComponents("a\na")) == "a\na"
  {
    SplitRepeatedLine();
    RepeatedLineAsWritten();
    MarkdownLossless("a\na");
  }

  /** The text the as-written loop keeps: the lines in order, each followed by
      a newline exactly when it differs from the last line. */
  function JoinAsWritten(lines: seq<string>, last: string): string
    decreases |lines|
  {
    if |lines| == 0 then ""
    else lines[0] + (if lines[0] != last then "\n" else "") + JoinAsWritten(lines[1..], last)
  }

  lemma {:induction false} LinesAsWrittenSource(lines: seq<string>, last: string)
    ensures SourceText(LinesAsWritten(lines, last)) == JoinAsWritten(lines, last)
    decreases |lines|
  {
    if |lines| > 0 {
      var brk: seq<Node> := if lines[0] != last then [LineBreak] else [];
      LineComponentsLossless(lines[0]);
      LinesAsWrittenSource(lines[1..], last);
      SourceTextAppend(LineComponents(lines[0]) + brk, LinesAsWritten(lines[1..], last));
      SourceTextAppend(LineComponents(lines[0]), brk);
      if brk != [] {
        SingleSource(LineBreak);
      } else {
        assert SourceText(brk) == "";
      }
    }
  }

  /** Whatever the text, the as-written components read back to its lines in
      order, each followed by a newline exactly when it differs from the last line. */
  lemma MarkdownAsWrittenReadsBack(text: string)
    ensures var lines := Split(text, '\n');
      SourceText(MarkdownAsWritten(text)) == JoinAsWritten(lines, lines[|lines| - 1])
  {
    var lines := Split(text, '\n');
    if text == "" {
      assert lines == [""];
      assert SourceText([Text("")]) == NodeSource(Text("")) + SourceText([]);
      assert JoinAsWritten(lines, "") == "" + "" + JoinAsWritten([], "");
    } else {
      LinesAsWrittenSource(lines, lines[|lines| - 1]);
    }
  }

  /** Every line keeps its break under the as-written rule exactly when no
      earlier line repeats the last one; otherwise the read-back is shorter. */
  lemma {:induction false} JoinAsWrittenVersusJoin(lines: seq<string>, last: string)
    requires |lines| >= 1 && lines[|lines| - 1] == last
    ensures (forall i :: 0 <= i < |lines| - 1 ==> lines[i] != last) ==>
      JoinAsWritten(lines, last) == Join(lines, '\n')
    ensures (exists i :: 0 <= i < |lines| - 1 && lines[i] == last) ==>
      |JoinAsWritten(lines, last)| < |Join(lines, '\n')|
    ensures |JoinAsWritten(lines, last)| <= |Join(lines, '\n')|
    decreases |lines|
  {
    if |lines| == 1 {
      assert JoinAsWritten(lines, last) == lines[0] + "" + JoinAsWritten([], last);
    } else {
      var rest := lines[1..];
      JoinAsWrittenVersusJoin(rest, last);
      assert JoinAsWritten(lines, last) == lines[0] + (if lines[0] != last then "\n" else "") + JoinAsWritten(rest, last);
      assert Join(lines, '\n') == lines[0] + "\n" + Join(rest, '\n');
      if exists i :: 0 <= i < |lines| - 1 && lines[i] == last {
        var i :| 0 <= i < |lines| - 1 && lines[i] == last;
        if i > 0 {
          assert rest[i - 1] == last;
        }
      }
      if forall i :: 0 <= i < |lines| - 1 ==> lines[i] != last {
        assert forall i :: 0 <= i < |rest| - 1 ==> rest[i] == lines[i + 1];
      }
    }
  }

  /** The as-written components read back to the text exactly when no earlier
      line repeats the last line. */
  lemma MarkdownAsWrittenLosslessIff(text: string)
    ensures var lines := Split(text, '\n');
      SourceText(MarkdownAsWritten(text)) == text <==>
        forall i :: 0 <= i < |lines| - 1 ==> lines[i] != lines[|lines| - 1]
  {
    var lines := Split(text, '\n');
    var last := lines[|lines| - 1];
    var back := SourceText(MarkdownAsWritten(text));
    MarkdownAsWrittenReadsBack(text);
    assert back == JoinAsWritten(lines, last);
    JoinAsWrittenVersusJoin(lines, last);
    JoinSplit(text, '\n');
    if exists i :: 0 <= i < |lines| - 1 && lines[i] == last {
      assert |back| < |text|;
    }
  }

  // ---------------------------------------------------------------------------
  // Fragments, documents and the container
  // ---------------------------------------------------------------------------

  /** "Fragmento i", with " - header" appended only when there is a header. */
  function FragmentTitle(index: nat, header: string): string {
    "Fragmento " + NatToString(index) + (if header != "" then " - " + header else "")
  }

  /** `_format_chunk_collapsible`: a fragment accordion with its numbered
      title and its text formatted by the line loop as written. */
  function FormatChunkCollapsible(chunk: ChunkData, index: nat): (r: Node)
    ensures r.Elem? && r.tag == Details && r.cls == "chunk-details" && |r.children| == 2
    ensures r.children[0] == Elem(Summary, "chunk-summary", [], [Text("▪ " + FragmentTitle(index, chunk.header))])
    ensures r.children[1] == Elem(Div, "chunk-content-wrapper", [],
      [Elem(Div, "chunk-content", [], MarkdownAsWritten(chunk.text))])
  {
    Elem(Details, "chunk-details", [], [
      Elem(Summary, "chunk-summary", [], [Text("▪ " + FragmentTitle(index, chunk.header))]),
      Elem(Div, "chunk-content-wrapper", [], [
        Elem(Div, "chunk-content", [], MarkdownAsWritten(chunk.text))])])
  }

  /** A fragment's content reads back to its chunk's text unless an earlier
      line repeats the last one (then that line loses its break, as
      `MarkdownAsWrittenDropsBreak` shows). */
  lemma FragmentContentReadsBack(chunk: ChunkData, index: nat)
    requires forall i :: 0 <= i < |Split(chunk.text, '\n')| - 1 ==>
      Split(chunk.text, '\n')[i] != Split(chunk.text, '\n')[|Split(chunk.text, '\n')| - 1]
    ensures FormatChunkCollapsible(chunk, index).children[1].children[0].children == MarkdownComponents(chunk.text)
    ensures SourceText(FormatChunkCollapsible(chunk, index).children[1].children[0].children) == chunk.text
  {
    if chunk.text != "" {
      MarkdownAgreesWithoutRepeatedLastLine(chunk.text);
    }
    MarkdownLossless(chunk.text);
  }

  /** The number of leading decimal digits of `s`. */
  function LeadingDigits(s: string): (n: nat)
    ensures n <= |s| && AllDigits(s[..n])
    ensures n < |s| ==> !IsDigit(s[n])
    decreases |s|
  {
    if |s| > 0 && IsDigit(s[0]) then 1 + LeadingDigits(s[1..]) else 0
  }

  /** Reads a fragment title back into its number and header. */
  function ParseFragmentTitle(title: string): Option<(nat, string)> {
    if !("Fragmento " <= title) then None
    else
      var rest := title[10..];
      var n := LeadingDigits(rest);
      var tail := rest[n..];
      if n == 0 then None
      else if tail == "" then Some((ParseNat(rest[..n]), ""))
      else if " - " <= tail && |tail| > 3 then Some((ParseNat(rest[..n]), tail[3..]))
      else None
  }

  lemma {:induction false} LeadingDigitsOf(d: string, t: string)
    requires AllDigits(d)
    requires t == "" || !IsDigit(t[0])
    ensures LeadingDigits(d + t) == |d|
    decreases |d|
  {
    if |d| > 0 {
      assert (d + t)[1..] == d[1..] + t;
      LeadingDigitsOf(d[1..], t);
    } else {
      assert d + t == t;
    }
  }

  /** The title identifies the fragment: its number and header read back. */
  lemma FragmentTitleRoundTrip(index: nat, header: string)
    ensures ParseFragmentTitle(FragmentTitle(index, header)) == Some((index, header))
  {
    var digits := NatToString(index);
    var suffix := if header != "" then " - " + header else "";
    var title := FragmentTitle(index, header);
    assert title == "Fragmento " + (digits + suffix);
    assert "Fragmento " <= title;
    var rest := title[10..];
    assert rest == digits + suffix;
    LeadingDigitsOf(digits, suffix);
    assert rest[..|digits|] == digits;
    assert rest[|digits|..] == suffix;
    ParseNatToString(index);
    if header != "" {
      assert suffix[3..] == header;
    }
  }

  /** `source.x or default` for an optional string. */
  function OrDefault(s: Option<string>, default: string): string {
    if Truthy(s) then s.value else default
  }

  /** `_get_age_text`: date, age description and emoji when both age fields are
      present; otherwise the date with a question mark; otherwise a fixed text. */
  function AgeText(source: DocumentSource): (r: string)
    ensures Truthy(source.ageDescription) && Truthy(source.ageEmoji) ==>
      r == OrDefault(source.publicationDate, "Fecha no especificada")
        + " (" + source.ageDescription.value + ") " + source.ageEmoji.value
    ensures !(Truthy(source.ageDescription) && Truthy(source.ageEmoji)) && Truthy(source.publicationDate) ==>
      r == source.publicationDate.value + " ❓"
    ensures !(Truthy(source.ageDescription) && Truthy(source.ageEmoji)) && !Truthy(source.publicationDate) ==>
      r == "Fecha no disponible ❓"
  {
    if Truthy(source.ageDescription) && Truthy(source.ageEmoji) then
      OrDefault(source.publicationDate, "Fecha no especificada")
        + " (" + source.ageDescription.value + ") " + source.ageEmoji.value
    else if Truthy(source.publicationDate) then source.publicationDate.value + " ❓"
    else "Fecha no disponible ❓"
  }

  predicate EndsWith(s: string, suffix: string) {
    |suffix| <= |s| && s[|s| - |suffix|..] == suffix
  }

  /** The age row always starts with the date (or a "Fecha no ..." default),
      ends with the emoji when both age fields are set and with " ❓" otherwise;
      so, for an emoji not ending in "❓", a final "❓" marks a missing age field. */
  lemma AgeTextShape(source: DocumentSource)
    ensures var r := AgeText(source);
      && (Truthy(source.publicationDate) ==> source.publicationDate.value <= r)
      && (!Truthy(source.publicationDate) ==> "Fecha no " <= r)
      && (Truthy(source.ageDescription) && Truthy(source.ageEmoji) ==>
            EndsWith(r, ") " + source.ageEmoji.value))
      && (!(Truthy(source.ageDescription) && Truthy(source.ageEmoji)) ==> EndsWith(r, " ❓"))
      && (Truthy(source.ageEmoji) && source.ageEmoji.value[|source.ageEmoji.value| - 1] != '❓' ==>
            (r[|r| - 1] == '❓' <==> !Truthy(source.ageDescription)))
  {
    var r := AgeText(source);
    var date := OrDefault(source.publicationDate, "Fecha no especificada");
    if Truthy(source.ageDescription) && Truthy(source.ageEmoji) {
      var e := source.ageEmoji.value;
      assert r == (date + " (" + source.ageDescription.value) + (") " + e);
      assert r[|r| - 1] == e[|e| - 1];
    }
  }

  function DocumentTitle(source: DocumentSource): string {
    if source.title != "" then source.title else "Documento sin título"
  }

  /** The link row, present only for a non-empty url. */
  function LinkRow(url: string): seq<Node> {
    if url != "" then
      [Elem(Div, "document-metadata", [], [
        Text("🔗 "),
        Elem(A, "document-metadata-link", [("href", url), ("target", "_blank")], [Text(url)])])]
    else []
  }

  function Fragments(chunks: seq<ChunkData>): (r: seq<Node>)
    ensures |r| == |chunks|
    ensures forall i :: 0 <= i < |chunks| ==> r[i] == FormatChunkCollapsible(chunks[i], i + 1)
  {
    seq(|chunks|, i requires 0 <= i < |chunks| => FormatChunkCollapsible(chunks[i], i + 1))
  }

  /** `_format_document_section`: a document accordion whose summary shows the
      title and the fragment count, and whose content is the age row, the link
      row when there is a url, then one fragment per chunk. The index the
      source passes is unused there too. */
  function FormatDocumentSection(source: DocumentSource, index: nat): (r: Node)
    ensures r.Elem? && r.tag == Details && |r.children| == 2
    ensures r.children[0].Elem? && |r.children[0].children| == 2 && r.children[0].children[0] == Text("📄 " + DocumentTitle(source))
    ensures |SectionContent(r)| == 1 + (if OrEmpty(source.url) != "" then 1 else 0) + |source.chunks|
  {
    var url := OrEmpty(source.url);
    Elem(Details, "document-details", [], [
      Elem(Summary, "document-summary", [], [
        Text("📄 " + DocumentTitle(source)),
        Elem(Span, "document-stats", [], [Text("(" + NatToString(|source.chunks|) + " fragmentos)")])]),
      Elem(Div, "document-content", [],
        [Elem(Div, "document-metadata", [], [Text("📅 " + AgeText(source))])]
        + LinkRow(url)
        + Fragments(source.chunks))])
  }

  /** The content rows of a rendered document section. */
  function SectionContent(section: Node): seq<Node> {
    if section.Elem? && |section.children| == 2 && section.children[1].Elem? then section.children[1].children
    else []
  }

  /** A document section holds 1 + [url present] + n rows: the age row first,
      then the link row exactly when the url is non-empty, then the fragments
      numbered from 1 in chunk order, each titled with its header when it has one. */
  lemma DocumentSectionLayout(source: DocumentSource, index: nat)
    ensures var content := SectionContent(FormatDocumentSection(source, index));
      var hasLink := if OrEmpty(source.url) != "" then 1 else 0;
      && |content| == 1 + hasLink + |source.chunks|
      && content[0] == Elem(Div, "document-metadata", [], [Text("📅 " + AgeText(source))])
      && (hasLink == 1 ==> content[1] == LinkRow(OrEmpty(source.url))[0])
      && forall i :: 0 <= i < |source.chunks| ==>
           content[1 + hasLink + i] == FormatChunkCollapsible(source.chunks[i], i + 1)
  {
    SectionHead(source, index);
    SectionFragments(source, index);
  }

  /** The age row and the link row of a document section. */
  lemma SectionHead(source: DocumentSource, index: nat)
    ensures var content := SectionContent(FormatDocumentSection(source, index));
      && |content| >= 1
      && content[0] == Elem(Div, "document-metadata", [], [Text("📅 " + AgeText(source))])
      && (OrEmpty(source.url) != "" ==> |content| >= 2 && content[1] == LinkRow(OrEmpty(source.url))[0])
  {
    SectionContentOf(source, index);
    HeadRows(Elem(Div, "document-metadata", [], [Text("📅 " + AgeText(source))]),
      LinkRow(OrEmpty(source.url)), Fragments(source.chunks));
  }

  /** The fragment rows of a document section, after the age and link rows. */
  lemma SectionFragments(source: DocumentSource, index: nat)
    ensures var content := SectionContent(FormatDocumentSection(source, index));
      var hasLink := if OrEmpty(source.url) != "" then 1 else 0;
      forall i :: 0 <= i < |source.chunks| ==>
        1 + hasLink + i < |content| && content[1 + hasLink + i] == FormatChunkCollapsible(source.chunks[i], i + 1)
  {
    var url := OrEmpty(source.url);
    var hasLink := if url != "" then 1 else 0;
    var content := SectionContent(FormatDocumentSection(source, index));
    var first := Elem(Div, "document-metadata", [], [Text("📅 " + AgeText(source))]);
    var fragments := Fragments(source.chunks);
    SectionContentOf(source, index);
    assert content == [first] + LinkRow(url) + fragments;
    assert |LinkRow(url)| == hasLink;
    forall i | 0 <= i < |source.chunks|
      ensures var content := SectionContent(FormatDocumentSection(source, index));
        var hasLink := if OrEmpty(source.url) != "" then 1 else 0;
        1 + hasLink + i < |content| && content[1 + hasLink + i] == FormatChunkCollapsible(source.chunks[i], i + 1)
    {
      RowAt(first, LinkRow(url), fragments, i);
    }
  }

  lemma SectionContentOf(source: DocumentSource, index: nat)
    ensures SectionContent(FormatDocumentSection(source, index))
      == [Elem(Div, "document-metadata", [], [Text("📅 " + AgeText(source))])]
         + LinkRow(OrEmpty(source.url)) + Fragments(source.chunks)
  {
  }

  /** The row `i` of the tail of `[first] + links + rest`. */
  lemma RowAt(first: Node, links: seq<Node>, rest: seq<Node>, i: nat)
    requires i < |rest|
    ensures 1 + |links| + i < |[first] + links + rest|
    ensures ([first] + links + rest)[1 + |links| + i] == rest[i]
  {
  }

  /** The first two rows of `[first] + links + rest`. */
  lemma HeadRows(first: Node, links: seq<Node>, rest: seq<Node>)
    ensures |[first] + links + rest| >= 1 && ([first] + links + rest)[0] == first
    ensures |links| > 0 ==> |[first] + links + rest| >= 2 && ([first] + links + rest)[1] == links[0]
  {
  }

  /** Each fragment's title reads back as its position (from 1) and its header. */
  lemma FragmentTitlesNumbered(chunks: seq<ChunkData>)
    ensures forall i :: 0 <= i < |chunks| ==>
      Fragments(chunks)[i].children[0].children[0] == Text("▪ " + FragmentTitle(i + 1, chunks[i].header))
      && ParseFragmentTitle(FragmentTitle(i + 1, chunks[i].header)) == Some((i + 1, chunks[i].header))
  {
    forall i | 0 <= i < |chunks|
      ensures ParseFragmentTitle(FragmentTitle(i + 1, chunks[i].header)) == Some((i + 1, chunks[i].header))
    {
      FragmentTitleRoundTrip(i + 1, chunks[i].header);
    }
  }

  /** The title shown for a source: its own, or a default for an empty one;
      the stats text reads back as the fragment count. */
  lemma DocumentSummary(source: DocumentSource, index: nat)
    ensures var summary := FormatDocumentSection(source, index).children[0];
      && summary.children[0] == Text("📄 " + (if source.title == "" then "Documento sin título" else source.title))
      && summary.children[1].children[0] == Text("(" + NatToString(|source.chunks|) + " fragmentos)")
  {
  }

  /** `_render_sources_content`: one document section per source, numbered from 1. */
  function RenderSourcesContent(sources: seq<DocumentSource>): (r: seq<Node>)
    ensures |r| == |sources|
    ensures forall i :: 0 <= i < |sources| ==> r[i] == FormatDocumentSection(sources[i], i + 1)
  {
    seq(|sources|, i requires 0 <= i < |sources| => FormatDocumentSection(sources[i], i + 1))
  }

  /** `render_embedded_sources`: an empty container for no sources; otherwise
      the top accordion whose summary counts the documents and whose content
      holds one section per source. A missing query id is made from the clock
      reading `now` (seconds). */
  function RenderEmbeddedSources(sources: seq<DocumentSource>, queryId: Option<string>, now: nat): (r: Node)
    ensures sources == [] ==> r == Wrap(Div, "")
    ensures sources != [] ==> r.Elem? && r.cls == "embedded-sources-container"
  {
    if |sources| == 0 then Wrap(Div, "")
    else
      var qid := if queryId.Some? then queryId.value else "q" + NatToString(now);
      Elem(Div, "embedded-sources-container", [("data-query-id", qid)], [
        Elem(Details, "embedded-sources", [], [
          Elem(Summary, "embedded-sources-summary", [], [
            Text("📚 "),
            Wrap(Strong, "Fuentes consultadas (" + NatToString(|sources|) + " documentos)")]),
          Elem(Div, "embedded-sources-content", [], RenderSourcesContent(sources))])])
  }

  /** The document sections inside a rendered container. */
  function RenderedSections(container: Node): seq<Node> {
    if container.Elem? && |container.children| == 1 && container.children[0].Elem?
       && |container.children[0].children| == 2 && container.children[0].children[1].Elem?
    then container.children[0].children[1].children
    else []
  }

  /** The number a summary text such as "Fuentes consultadas (3 documentos)" announces. */
  function AnnouncedCount(s: string): Option<nat> {
    var prefix := "Fuentes consultadas (";
    if prefix <= s && LeadingDigits(s[|prefix|..]) > 0 then
      var rest := s[|prefix|..];
      Some(ParseNat(rest[..LeadingDigits(rest)]))
    else None
  }

  /** The count written into the summary reads back as itself. */
  lemma AnnouncedCountOf(n: nat)
    ensures AnnouncedCount("Fuentes consultadas (" + NatToString(n) + " documentos)") == Some(n)
  {
    var s := "Fuentes consultadas (" + NatToString(n) + " documentos)";
    var digits := NatToString(n);
    assert s[21..] == digits + " documentos)";
    LeadingDigitsOf(digits, " documentos)");
    assert (digits + " documentos)")[..|digits|] == digits;
    ParseNatToString(n);
  }

  /** The count announced by the container's summary. */
  function SummaryCount(container: Node): Option<nat> {
    if container.Elem? && |container.children| == 1 && container.children[0].Elem?
       && |container.children[0].children| == 2 && container.children[0].children[0].Elem?
       && |container.children[0].children[0].children| == 2
       && container.children[0].children[0].children[1].Elem?
       && |container.children[0].children[0].children[1].children| == 1
       && container.children[0].children[0].children[1].children[0].Text?
    then AnnouncedCount(container.children[0].children[0].children[1].children[0].s)
    else None
  }

  /** A non-empty source list renders one section per source in order, and the
      summary's count reads back as the number of sources. */
  lemma RenderedStructure(sources: seq<DocumentSource>, queryId: Option<string>, now: nat)
    requires sources != []
    ensures var r := RenderEmbeddedSources(sources, queryId, now);
      && |RenderedSections(r)| == |sources|
      && (forall i :: 0 <= i < |sources| ==>
            SectionContent(RenderedSections(r)[i]) == SectionContent(FormatDocumentSection(sources[i], i + 1))
            && RenderedSections(r)[i].children[0].children[0] == Text("📄 " + DocumentTitle(sources[i])))
      && SummaryCount(r) == Some(|sources|)
  {
    var r := RenderEmbeddedSources(sources, queryId, now);
    assert RenderedSections(r) == RenderSourcesContent(sources);
    AnnouncedCountOf(|sources|);
  }
}
