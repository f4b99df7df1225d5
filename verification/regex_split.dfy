/** Python's `re.split` for the two inline-Markdown patterns of the context
    renderer, each with exactly one capture group:

      Bold   = \*\*(.*?)\*\*                 (`.` does not match a newline)
      Italic = (?<!\*)\*([^*]+?)\*(?!\*)

    `re.split` scans left to right for the leftmost match, emits the text
    before it and then the captured group, and resumes after the match; so the
    result has odd length, with the captures at the odd indices. */
module RegexSplit {
  import opened Optional

  datatype Pattern = Bold | Italic

  /** A match of a pattern in `s`: the whole match is `s[start..end]`, the
      capture group `s[capStart..capEnd]`. */
  datatype Match = Match(start: nat, capStart: nat, capEnd: nat, end: nat)

  /** The literal text around the capture group. */
  function Delimiter(p: Pattern): string {
    match p
    case Bold => "**"
    case Italic => "*"
  }

  /** `m` is a match of `p`'s shape inside `s`: delimiter, capture, delimiter. */
  predicate WellFormed(p: Pattern, s: string, m: Match) {
    && m.start < m.capStart <= m.capEnd < m.end <= |s|
    && s[m.start..m.capStart] == Delimiter(p)
    && s[m.capEnd..m.end] == Delimiter(p)
  }

  predicate StarPairAt(s: string, k: nat) {
    k + 2 <= |s| && s[k] == '*' && s[k + 1] == '*'
  }

  /** The lazy `(.*?)\*\*` from index `j`: the first `**` at or after `j`,
      provided no newline comes before it. */
  function BoldClose(s: string, j: nat): (r: Option<nat>)
    requires j <= |s|
    ensures r.Some? ==> j <= r.value && StarPairAt(s, r.value)
    ensures r.Some? ==> forall m :: j <= m < r.value ==> s[m] != '\n' && !StarPairAt(s, m)
    decreases |s| - j
  {
    if j + 2 > |s| then None
    else if StarPairAt(s, j) then Some(j)
    else if s[j] == '\n' then None
    else BoldClose(s, j + 1)
  }

  /** The first `*` at or after index `j`. */
  function NextStar(s: string, j: nat): (r: Option<nat>)
    requires j <= |s|
    ensures r.Some? ==> j <= r.value < |s| && s[r.value] == '*'
    ensures r.Some? ==> forall m :: j <= m < r.value ==> s[m] != '*'
    decreases |s| - j
  {
    if j == |s| then None
    else if s[j] == '*' then Some(j)
    else NextStar(s, j + 1)
  }

  /** `\*\*(.*?)\*\*` at index `i`. */
  function BoldMatchAt(s: string, i: nat): (r: Option<Match>)
    ensures r.Some? ==> r.value.start == i && WellFormed(Bold, s, r.value)
    ensures r.Some? ==> forall m :: r.value.capStart <= m < r.value.capEnd ==> s[m] != '\n'
  {
    if !StarPairAt(s, i) then None
    else
      match BoldClose(s, i + 2)
      case Some(k) =>
        assert s[i..i + 2] == "**" && s[k..k + 2] == "**";
        Some(Match(i, i + 2, k, k + 2))
      case None => None
  }

  /** `(?<!\*)\*([^*]+?)\*(?!\*)` at index `i`. */
  function ItalicMatchAt(s: string, i: nat): (r: Option<Match>)
    ensures r.Some? ==> r.value.start == i && WellFormed(Italic, s, r.value)
    ensures r.Some? ==> forall m :: r.value.capStart <= m < r.value.capEnd ==> s[m] != '*'
  {
    if !(i < |s| && s[i] == '*' && (i == 0 || s[i - 1] != '*')) then None
    else
      match NextStar(s, i + 1)
      case Some(k) =>
        if k > i + 1 && (k + 1 == |s| || s[k + 1] != '*') then
          assert s[i..i + 1] == "*" && s[k..k + 1] == "*";
          Some(Match(i, i + 1, k, k + 1))
        else None
      case None => None
  }

  /** The match of `p` that starts exactly at index `i`, if there is one. */
  function MatchAt(p: Pattern, s: string, i: nat): (r: Option<Match>)
    ensures r.Some? ==> r.value.start == i && WellFormed(p, s, r.value)
    ensures r.Some? && p == Bold ==> forall m :: r.value.capStart <= m < r.value.capEnd ==> s[m] != '\n'
    ensures r.Some? && p == Italic ==> forall m :: r.value.capStart <= m < r.value.capEnd ==> s[m] != '*'
  {
    match p
    case Bold => BoldMatchAt(s, i)
    case Italic => ItalicMatchAt(s, i)
  }

  /** No match of `p` starts in `[lo, hi)`. */
  ghost predicate NoMatchIn(p: Pattern, s: string, lo: nat, hi: nat) {
    forall i :: lo <= i < hi ==> MatchAt(p, s, i).None?
  }

  /** The leftmost match of `p` starting at or after index `from`. */
  function FindMatch(p: Pattern, s: string, from: nat): (r: Option<Match>)
    requires from <= |s|
    ensures r.Some? ==> from <= r.value.start && MatchAt(p, s, r.value.start) == r && NoMatchIn(p, s, from, r.value.start)
    ensures r.None? ==> NoMatchIn(p, s, from, |s| + 1)
    decreases |s| - from
  {
    var here := MatchAt(p, s, from);
    if here.Some? then here
    else if from == |s| then None
    else FindMatch(p, s, from + 1)
  }

  /** `pattern.split(s[from..])`: the text between matches at the even
      indices, the capture groups at the odd indices. */
  function ReSplit(p: Pattern, s: string, from: nat): (parts: seq<string>)
    requires from <= |s|
    ensures |parts| % 2 == 1
    decreases |s| - from
  {
    match FindMatch(p, s, from)
    case None => [s[from..]]
    case Some(m) => [s[from..m.start], s[m.capStart..m.capEnd]] + ReSplit(p, s, m.end)
  }

  /** Puts the delimiters back around the odd-indexed parts; `even` says
      whether `parts[0]` sits at an even index of the full split. */
  function RejoinFrom(p: Pattern, parts: seq<string>, even: bool): string
    decreases |parts|
  {
    if |parts| == 0 then ""
    else (if even then parts[0] else Delimiter(p) + parts[0] + Delimiter(p)) + RejoinFrom(p, parts[1..], !even)
  }

  function Rejoin(p: Pattern, parts: seq<string>): string {
    RejoinFrom(p, parts, true)
  }

  /** Rejoining a text part and a capture puts the delimiters around the capture. */
  lemma RejoinStep(p: Pattern, text: string, capture: string, rest: seq<string>)
    ensures Rejoin(p, [text, capture] + rest) == text + Delimiter(p) + capture + Delimiter(p) + Rejoin(p, rest)
  {
    var parts := [text, capture] + rest;
    assert parts[1..] == [capture] + rest;
    assert parts[1..][1..] == rest;
    var d := Delimiter(p);
    assert RejoinFrom(p, parts[1..], false) == d + capture + d + Rejoin(p, rest);
    assert Rejoin(p, parts) == text + RejoinFrom(p, parts[1..], false);
  }

  /** A match cuts `s[from..]` into the text before it, the delimited capture and the text after it. */
  lemma MatchSlices(p: Pattern, s: string, from: nat, m: Match)
    requires from <= m.start && WellFormed(p, s, m)
    ensures s[from..m.start] + Delimiter(p) + s[m.capStart..m.capEnd] + Delimiter(p) + s[m.end..] == s[from..]
  {
    assert s[from..] == s[from..m.start] + s[m.start..m.capStart] + s[m.capStart..m.capEnd] + s[m.capEnd..m.end] + s[m.end..];
  }

  /** Splitting loses no text: restoring the delimiters around the captures
      gives back exactly the string that was split. */
  lemma {:induction false} RejoinReSplit(p: Pattern, s: string, from: nat)
    requires from <= |s|
    ensures Rejoin(p, ReSplit(p, s, from)) == s[from..]
    decreases |s| - from
  {
    match FindMatch(p, s, from)
    case None =>
      assert RejoinFrom(p, [s[from..]], true) == s[from..] + RejoinFrom(p, [], false);
    case Some(m) =>
      RejoinReSplit(p, s, m.end);
      RejoinStep(p, s[from..m.start], s[m.capStart..m.capEnd], ReSplit(p, s, m.end));
      MatchSlices(p, s, from, m);
  }

  /** The captures at the odd indices: an italic capture is non-empty and
      holds no `*`; a bold capture holds no newline. */
  lemma {:induction false} CapturesShape(p: Pattern, s: string, from: nat)
    requires from <= |s|
    ensures forall j :: 0 <= j < |ReSplit(p, s, from)| && j % 2 == 1 ==>
      (p == Italic ==> ReSplit(p, s, from)[j] != "" && '*' !in ReSplit(p, s, from)[j])
      && (p == Bold ==> '\n' !in ReSplit(p, s, from)[j])
    decreases |s| - from
  {
    match FindMatch(p, s, from)
    case None =>
    case Some(m) =>
      CapturesShape(p, s, m.end);
      var parts := ReSplit(p, s, from);
      assert parts[2..] == ReSplit(p, s, m.end);
      forall j | 0 <= j < |parts| && j % 2 == 1
        ensures (p == Italic ==> parts[j] != "" && '*' !in parts[j]) && (p == Bold ==> '\n' !in parts[j])
      {
        if j == 1 {
          assert parts[1] == s[m.capStart..m.capEnd];
          if p == Italic {
            assert m.capStart < m.capEnd by {
              assert s[m.capEnd..m.end] == "*";
              assert s[m.start..m.capStart] == "*";
            }
          }
        } else {
          assert parts[j] == ReSplit(p, s, m.end)[j - 2];
        }
      }
  }
}
