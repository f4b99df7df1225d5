/** String helpers shared by the model: decimal rendering, substring search,
    ASCII case folding, splitting on one character and the whitespace sets of
    Python's `str.strip` and JavaScript's `String.prototype.trim`. */
module Strings {

  // ---------------------------------------------------------------------------
  // Decimal numerals (Python's `str(n)` / an f-string `{n}` for n >= 0)
  // ---------------------------------------------------------------------------

  predicate IsDigit(c: char) {
    '0' <= c <= '9'
  }

  predicate AllDigits(s: string) {
    forall i :: 0 <= i < |s| ==> IsDigit(s[i])
  }

  function DigitChar(d: nat): (c: char)
    requires d < 10
    ensures IsDigit(c)
  {
    "0123456789"[d]
  }

  function DigitValue(c: char): (d: nat)
    requires IsDigit(c)
    ensures d < 10
  {
    (c as int) - ('0' as int)
  }

  /** The decimal numeral of `n`, most significant digit first, no leading zeros. */
  function NatToString(n: nat): (s: string)
    ensures |s| >= 1 && AllDigits(s)
    ensures |s| > 1 ==> s[0] != '0'
    decreases n
  {
    if n < 10 then [DigitChar(n)] else NatToString(n / 10) + [DigitChar(n % 10)]
  }

  /** Reads a decimal numeral back; the partner of `NatToString`. */
  function ParseNat(s: string): nat
    requires AllDigits(s)
    decreases |s|
  {
    if |s| == 0 then 0 else ParseNat(s[..|s| - 1]) * 10 + DigitValue(s[|s| - 1])
  }

  /** Every count the model prints can be read back exactly. */
  lemma {:induction false} ParseNatToString(n: nat)
    ensures ParseNat(NatToString(n)) == n
    decreases n
  {
    var s := NatToString(n);
    if n < 10 {
      assert s[..|s| - 1] == [];
    } else {
      assert s[..|s| - 1] == NatToString(n / 10);
      ParseNatToString(n / 10);
    }
  }

  /** Distinct counts print differently. */
  lemma NatToStringInjective(m: nat, n: nat)
    ensures NatToString(m) == NatToString(n) ==> m == n
  {
    ParseNatToString(m);
    ParseNatToString(n);
  }

  // ---------------------------------------------------------------------------
  // Substrings (Python's `sub in s`, JavaScript's `s.includes(sub)`)
  // ---------------------------------------------------------------------------

  /** `sub` occurs in `s` starting at index `i`. */
  predicate OccursAt(s: string, sub: string, i: nat) {
    i + |sub| <= |s| && s[i..i + |sub|] == sub
  }

  /** Left-to-right substring search. */
  function Contains(s: string, sub: string): bool
    decreases |s|
  {
    if sub <= s then true
    else if |s| == 0 then false
    else Contains(s[1..], sub)
  }

  lemma OccursAtShift(s: string, sub: string, i: nat)
    requires |s| > 0
    ensures OccursAt(s[1..], sub, i) <==> OccursAt(s, sub, i + 1)
  {
    if i + 1 + |sub| <= |s| {
      assert s[1..][i..i + |sub|] == s[i + 1..i + 1 + |sub|];
    }
  }

  /** The search finds `sub` exactly when it occurs at some index. */
  lemma {:induction false} ContainsIff(s: string, sub: string)
    ensures Contains(s, sub) <==> exists i: nat :: OccursAt(s, sub, i)
    decreases |s|
  {
    if sub <= s {
      assert OccursAt(s, sub, 0);
    } else if |s| == 0 {
      forall i: nat ensures !OccursAt(s, sub, i) {
      }
    } else {
      ContainsIff(s[1..], sub);
      assert !OccursAt(s, sub, 0);
      if Contains(s[1..], sub) {
        var i: nat :| OccursAt(s[1..], sub, i);
        OccursAtShift(s, sub, i);
      } else {
        forall i: nat ensures !OccursAt(s, sub, i) {
          if i > 0 {
            OccursAtShift(s, sub, i - 1);
          }
        }
      }
    }
  }

  // ---------------------------------------------------------------------------
  // ASCII case folding (what a JavaScript `/i` regex does to ASCII letters)
  // ---------------------------------------------------------------------------

  function AsciiLower(c: char): char {
    if 'A' <= c <= 'Z' then ((c as int) + 32) as char else c
  }

  function LowerAscii(s: string): (r: string)
    ensures |r| == |s|
    ensures forall i :: 0 <= i < |s| ==> r[i] == AsciiLower(s[i])
  {
    seq(|s|, i requires 0 <= i < |s| => AsciiLower(s[i]))
  }

  // ---------------------------------------------------------------------------
  // Splitting on one character (Python's `s.split(sep)`) and joining
  // ---------------------------------------------------------------------------

  /** Python's `s.split(sep)` for a one-character separator: always at least
      one part, empty parts kept. */
  function Split(s: string, sep: char): (parts: seq<string>)
    ensures |parts| >= 1
    decreases |s|
  {
    if |s| == 0 then [""]
    else
      var rest := Split(s[1..], sep);
      if s[0] == sep then [""] + rest
      else [[s[0]] + rest[0]] + rest[1..]
  }

  /** Python's `sep.join(parts)` for a one-character separator. */
  function Join(parts: seq<string>, sep: char): string
    decreases |parts|
  {
    if |parts| == 0 then ""
    else if |parts| == 1 then parts[0]
    else parts[0] + [sep] + Join(parts[1..], sep)
  }

  /** No part of a split contains the separator. */
  lemma {:induction false} SplitPartsHaveNoSep(s: string, sep: char)
    ensures forall i :: 0 <= i < |Split(s, sep)| ==> sep !in Split(s, sep)[i]
    decreases |s|
  {
    if |s| > 0 {
      SplitPartsHaveNoSep(s[1..], sep);
      var rest := Split(s[1..], sep);
      if s[0] != sep {
        assert sep !in [s[0]] + rest[0];
      }
    }
  }

  /** Joining the parts of a split gives the original string back. */
  lemma {:induction false} JoinSplit(s: string, sep: char)
    ensures Join(Split(s, sep), sep) == s
    decreases |s|
  {
    if |s| > 0 {
      var rest := Split(s[1..], sep);
      JoinSplit(s[1..], sep);
      assert s == [s[0]] + s[1..];
      if s[0] == sep {
        JoinCons("", rest, sep);
      } else if |rest| > 1 {
        JoinCons([s[0]] + rest[0], rest[1..], sep);
        JoinCons(rest[0], rest[1..], sep);
        assert [rest[0]] + rest[1..] == rest;
      }
    }
  }

  /** Joining a part in front of a non-empty list puts the separator between. */
  lemma JoinCons(p: string, rest: seq<string>, sep: char)
    requires |rest| > 0
    ensures Join([p] + rest, sep) == p + [sep] + Join(rest, sep)
  {
    assert ([p] + rest)[1..] == rest;
  }

  /** A string without the separator splits into itself alone. */
  lemma {:induction false} SplitNoSep(s: string, sep: char)
    requires sep !in s
    ensures Split(s, sep) == [s]
    decreases |s|
  {
    if |s| > 0 {
      SplitNoSep(s[1..], sep);
      assert [s[0]] + s[1..] == s;
    }
  }

  /** A separator-free text before the first separator is the first part. */
  lemma {:induction false} SplitAfterFirst(a: string, b: string, sep: char)
    requires sep !in a
    ensures Split(a + [sep] + b, sep) == [a] + Split(b, sep)
    decreases |a|
  {
    var s := a + [sep] + b;
    if |a| == 0 {
      assert s[1..] == b;
    } else {
      SplitAfterFirst(a[1..], b, sep);
      assert s[1..] == a[1..] + [sep] + b;
      assert [a[0]] + a[1..] == a;
    }
  }

  /** Splitting a join of separator-free parts gives the parts back. */
  lemma {:induction false} SplitJoin(parts: seq<string>, sep: char)
    requires |parts| >= 1
    requires forall i :: 0 <= i < |parts| ==> sep !in parts[i]
    ensures Split(Join(parts, sep), sep) == parts
    decreases |parts|
  {
    SplitNoSep(parts[0], sep);
    if |parts| > 1 {
      SplitJoin(parts[1..], sep);
      SplitAfterFirst(parts[0], Join(parts[1..], sep), sep);
      assert [parts[0]] + parts[1..] == parts;
    }
  }

  // ---------------------------------------------------------------------------
  // Whitespace
  // ---------------------------------------------------------------------------

  /** The characters Python's `str.strip()` and `str.isspace()` treat as whitespace. */
  predicate IsPySpace(c: char) {
    var n := c as int;
    || 0x09 <= n <= 0x0D || 0x1C <= n <= 0x20 || n == 0x85 || n == 0xA0
    || n == 0x1680 || 0x2000 <= n <= 0x200A || n == 0x2028 || n == 0x2029
    || n == 0x202F || n == 0x205F || n == 0x3000
  }

  /** The characters JavaScript's `trim()` and the regex class `\s` treat as whitespace. */
  predicate IsJsSpace(c: char) {
    var n := c as int;
    || 0x09 <= n <= 0x0D || n == 0x20 || n == 0xA0
    || n == 0x1680 || 0x2000 <= n <= 0x200A || n == 0x2028 || n == 0x2029
    || n == 0x202F || n == 0x205F || n == 0x3000 || n == 0xFEFF
  }

  /** The two whitespace classes in play: Python's `str.isspace` and
      JavaScript's `\s` / `trim`. */
  datatype Whitespace = Python | JavaScript

  predicate IsSpace(ws: Whitespace, c: char) {
    match ws
    case Python => IsPySpace(c)
    case JavaScript => IsJsSpace(c)
  }

  /** `s.strip()` would be empty: every character is whitespace of the given kind. */
  predicate IsBlank(s: string, ws: Whitespace) {
    forall i :: 0 <= i < |s| ==> IsSpace(ws, s[i])
  }

  /** The first index at or after `i` that is not whitespace (or `|s|`). */
  function SkipSpaces(s: string, ws: Whitespace, i: nat): (j: nat)
    requires i <= |s|
    ensures i <= j <= |s|
    ensures forall k :: i <= k < j ==> IsSpace(ws, s[k])
    ensures j < |s| ==> !IsSpace(ws, s[j])
    decreases |s| - i
  {
    if i < |s| && IsSpace(ws, s[i]) then SkipSpaces(s, ws, i + 1) else i
  }

  /** The index just after the last non-whitespace character in `s[lo..j]` (or `lo`). */
  function SkipSpacesBack(s: string, ws: Whitespace, lo: nat, j: nat): (k: nat)
    requires lo <= j <= |s|
    ensures lo <= k <= j
    ensures forall m :: k <= m < j ==> IsSpace(ws, s[m])
    ensures k > lo ==> !IsSpace(ws, s[k - 1])
    decreases j
  {
    if j > lo && IsSpace(ws, s[j - 1]) then SkipSpacesBack(s, ws, lo, j - 1) else j
  }

  /** `s.trim()` / `s.strip()`: the longest inner slice without whitespace at either end. */
  function Trim(s: string, ws: Whitespace): (r: string)
    ensures r == "" <==> IsBlank(s, ws)
    ensures |r| > 0 ==> !IsSpace(ws, r[0]) && !IsSpace(ws, r[|r| - 1])
    ensures exists a: nat :: OccursAt(s, r, a)
    ensures exists a: nat ::
      && a + |r| <= |s| && s[a..a + |r|] == r
      && IsBlank(s[..a], ws) && IsBlank(s[a + |r|..], ws)
  {
    var a := SkipSpaces(s, ws, 0);
    var b := SkipSpacesBack(s, ws, a, |s|);
    assert OccursAt(s, s[a..b], a);
    assert IsBlank(s[..a], ws) && IsBlank(s[b..], ws);
    assert a == b ==> IsBlank(s, ws) by {
      if a == b {
        assert forall k :: 0 <= k < |s| ==> IsSpace(ws, s[k]);
      }
    }
    s[a..b]
  }

  /** A non-empty slice with no whitespace at either end, preceded and followed
      only by whitespace, is what `trim()` returns. */
  lemma TrimIsTheSlice(s: string, ws: Whitespace, a: nat, t: string)
    requires a + |t| <= |s| && s[a..a + |t|] == t
    requires IsBlank(s[..a], ws) && IsBlank(s[a + |t|..], ws)
    requires |t| > 0 && !IsSpace(ws, t[0]) && !IsSpace(ws, t[|t| - 1])
    ensures Trim(s, ws) == t
  {
    assert s[a] == t[0] && s[a + |t| - 1] == t[|t| - 1];
    ScanStartsAt(s, ws, a);
    ScanEndsAt(s, ws, a, a + |t|);
  }

  /** The forward scan stops at the first character that is not whitespace. */
  lemma ScanStartsAt(s: string, ws: Whitespace, a: nat)
    requires a < |s| && IsBlank(s[..a], ws) && !IsSpace(ws, s[a])
    ensures SkipSpaces(s, ws, 0) == a
  {
  }

  /** The backward scan from the end stops just after the last character that
      is not whitespace. */
  lemma ScanEndsAt(s: string, ws: Whitespace, a: nat, e: nat)
    requires a < e <= |s| && IsBlank(s[e..], ws) && !IsSpace(ws, s[e - 1])
    ensures SkipSpacesBack(s, ws, a, |s|) == e
  {
  }

  /** `strip` leaves a string alone when neither end is whitespace. */
  lemma TrimUnchanged(s: string, ws: Whitespace)
    requires |s| > 0 && !IsSpace(ws, s[0]) && !IsSpace(ws, s[|s| - 1])
    ensures Trim(s, ws) == s
  {
    assert SkipSpaces(s, ws, 0) == 0;
    assert SkipSpacesBack(s, ws, 0, |s|) == |s|;
    assert s[0..|s|] == s;
  }

  /** Joining a concatenation is joining the halves around one separator. */
  lemma {:induction false} JoinAppend(a: seq<string>, b: seq<string>, sep: char)
    requires |a| >= 1 && |b| >= 1
    ensures Join(a + b, sep) == Join(a, sep) + [sep] + Join(b, sep)
    decreases |a|
  {
    if |a| == 1 {
      assert (a + b)[1..] == b;
    } else {
      JoinAppend(a[1..], b, sep);
      assert (a + b)[1..] == a[1..] + b;
    }
  }

  /** A join starts with its first part. */
  lemma JoinFirst(parts: seq<string>, sep: char)
    requires |parts| >= 1
    ensures parts[0] <= Join(parts, sep)
  {
  }

  /** A join ends with the last character of its last part. */
  lemma {:induction false} JoinLast(parts: seq<string>, sep: char)
    requires |parts| >= 1 && |parts[|parts| - 1]| > 0
    ensures |Join(parts, sep)| > 0
    ensures Join(parts, sep)[|Join(parts, sep)| - 1] == parts[|parts| - 1][|parts[|parts| - 1]| - 1]
    decreases |parts|
  {
    if |parts| > 1 {
      JoinLast(parts[1..], sep);
    }
  }
}
