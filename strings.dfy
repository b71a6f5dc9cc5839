/**
 * JavaScript string primitives that the tree builder and the selector
 * engine rely on: the `\s` character class, `trim`, `split(/\s+/)`,
 * `startsWith`/`endsWith`/`includes`, `indexOf` and `substring`, and the
 * whitespace test of text nodes.
 */
module Strings {

  /** The characters of JavaScript's `\s` class (WhiteSpace and LineTerminator). */
  predicate IsSpace(c: char) {
    c == ' ' || c == '\t' || c == '\n' || c == '\U{B}' || c == '\U{C}' || c == '\r'
    || c == '\U{A0}' || c == '\U{1680}' || ('\U{2000}' <= c <= '\U{200A}')
    || c == '\U{2028}' || c == '\U{2029}' || c == '\U{202F}' || c == '\U{205F}'
    || c == '\U{3000}' || c == '\U{FEFF}'
  }

  predicate AllSpace(s: string) {
    forall i :: 0 <= i < |s| ==> IsSpace(s[i])
  }

  predicate NoSpace(s: string) {
    forall i :: 0 <= i < |s| ==> !IsSpace(s[i])
  }

  predicate StartsWith(s: string, prefix: string) {
    |prefix| <= |s| && s[..|prefix|] == prefix
  }

  predicate EndsWith(s: string, suffix: string) {
    |suffix| <= |s| && s[|s| - |suffix|..] == suffix
  }

  /** `s` has an occurrence of `pat` starting at index `k`. */
  predicate OccursAt(s: string, pat: string, k: int) {
    0 <= k && k + |pat| <= |s| && s[k..k + |pat|] == pat
  }

  /** JavaScript `s.includes(pat)`. */
  predicate Contains(s: string, pat: string) {
    exists k | 0 <= k <= |s| :: OccursAt(s, pat, k)
  }

  /**
   * JavaScript `s.indexOf(pat, from)` for a non-negative `from`: the first
   * occurrence at or after `from`, or -1.
   */
  function IndexOf(s: string, pat: string, from: nat): (r: int)
    ensures r == -1 || (from <= r && OccursAt(s, pat, r))
    ensures forall k :: from <= k && (r == -1 || k < r) ==> !OccursAt(s, pat, k)
    decreases |s| - from
  {
    if from + |pat| > |s| then
      -1
    else if s[from..from + |pat|] == pat then
      from
    else
      IndexOf(s, pat, from + 1)
  }

  /** JavaScript `s.substring(a, b)`: both ends clamped to the string, swapped when reversed. */
  function Substring(s: string, a: int, b: int): (r: string)
    ensures a <= b && 0 <= a && b <= |s| ==> r == s[a..b]
  {
    var lo := if a < 0 then 0 else if a > |s| then |s| else a;
    var hi := if b < 0 then 0 else if b > |s| then |s| else b;
    if lo <= hi then s[lo..hi] else s[hi..lo]
  }

  /** JavaScript `s.substr(0, n)` for a non-negative `n`. */
  function Prefix(s: string, n: nat): (r: string)
    ensures StartsWith(s, r)
    ensures |r| == if n < |s| then n else |s|
  {
    if n < |s| then s[..n] else s
  }

  /** Number of leading `\s` characters. */
  function LeadingSpace(s: string): (n: nat)
    ensures n <= |s|
    ensures forall i :: 0 <= i < n ==> IsSpace(s[i])
    ensures n < |s| ==> !IsSpace(s[n])
  {
    if |s| == 0 || !IsSpace(s[0]) then 0 else 1 + LeadingSpace(s[1..])
  }

  /** Number of trailing `\s` characters. */
  function TrailingSpace(s: string): (n: nat)
    ensures n <= |s|
    ensures forall i :: |s| - n <= i < |s| ==> IsSpace(s[i])
    ensures n < |s| ==> !IsSpace(s[|s| - n - 1])
  {
    if |s| == 0 || !IsSpace(s[|s| - 1]) then 0 else 1 + TrailingSpace(s[..|s| - 1])
  }

  /** JavaScript `s.trim()`. */
  function Trim(s: string): (r: string)
  {
    var a := LeadingSpace(s);
    if a == |s| then "" else s[a..|s| - TrailingSpace(s)]
  }

  /** A trimmed string is a slice of the original with only `\s` cut at both ends. */
  lemma TrimIsSlice(s: string)
    ensures exists a, b :: 0 <= a <= b <= |s| && Trim(s) == s[a..b]
                && (forall i :: 0 <= i < a ==> IsSpace(s[i]))
                && (forall i :: b <= i < |s| ==> IsSpace(s[i]))
    ensures Trim(s) == "" || (!IsSpace(Trim(s)[0]) && !IsSpace(Trim(s)[|Trim(s)| - 1]))
  {
    var a, b := TrimBounds(s);
  }

  /** Trimming twice is trimming once. */
  lemma TrimIdempotent(s: string)
    ensures Trim(Trim(s)) == Trim(s)
  {
    var t := Trim(s);
    TrimIsSlice(s);
    if t != "" {
      assert LeadingSpace(t) == 0;
      assert TrailingSpace(t) == 0;
      assert t[0..] == t;
    }
  }

  // ---------------------------------------------------------------------
  // split(/\s+/)

  /** Index of the first `\s` character at or after `from`, or `|s|`. */
  function FirstSpace(s: string, from: nat): (k: nat)
    requires from <= |s|
    ensures from <= k <= |s|
    ensures forall i :: from <= i < k ==> !IsSpace(s[i])
    ensures k < |s| ==> IsSpace(s[k])
    decreases |s| - from
  {
    if from == |s| || IsSpace(s[from]) then from else FirstSpace(s, from + 1)
  }

  /**
   * JavaScript `s.split(/\s+/)`: the pieces between maximal runs of `\s`;
   * a leading run gives a leading "" and a trailing run a trailing "".
   */
  function SplitWs(s: string): (r: seq<string>)
    ensures |r| >= 1
    ensures forall i :: 0 <= i < |r| ==> NoSpace(r[i])
    decreases |s|
  {
    var k := FirstSpace(s, 0);
    if k == |s| then
      [s]
    else
      var rest := s[k..];
      [s[..k]] + SplitWs(rest[LeadingSpace(rest)..])
  }

  /** The runs of `\s` that `SplitWs(s)` splits at, in order. */
  function SpaceRuns(s: string): (r: seq<string>)
    ensures forall i :: 0 <= i < |r| ==> r[i] != "" && AllSpace(r[i])
    decreases |s|
  {
    var k := FirstSpace(s, 0);
    if k == |s| then
      []
    else
      var rest := s[k..];
      var n := LeadingSpace(rest);
      [rest[..n]] + SpaceRuns(rest[n..])
  }

  /** Tokens joined back together with the separators between them. */
  function Interleave(tokens: seq<string>, seps: seq<string>): string
    requires |tokens| == |seps| + 1
  {
    if seps == [] then tokens[0] else tokens[0] + seps[0] + Interleave(tokens[1..], seps[1..])
  }

  lemma InterleaveCons(t: string, sep: string, tokens: seq<string>, seps: seq<string>)
    requires |tokens| == |seps| + 1
    ensures Interleave([t] + tokens, [sep] + seps) == t + sep + Interleave(tokens, seps)
  {
    assert ([t] + tokens)[1..] == tokens && ([sep] + seps)[1..] == seps;
  }

  lemma JoinAtTwo(s: string, a: nat, b: nat)
    requires a <= b <= |s|
    ensures s[..a] + s[a..][..b - a] + s[a..][b - a..] == s
  {
    assert s[a..][..b - a] == s[a..b] && s[a..][b - a..] == s[b..];
  }

  /**
   * The split loses nothing but the separators: the tokens, joined by the
   * non-empty runs of `\s` between them, give back the input.
   */
  lemma {:induction false} SplitWsRecompose(s: string)
    ensures |SpaceRuns(s)| + 1 == |SplitWs(s)|
    ensures Interleave(SplitWs(s), SpaceRuns(s)) == s
    decreases |s|
  {
    var k := FirstSpace(s, 0);
    if k < |s| {
      var rest := s[k..];
      var n := LeadingSpace(rest);
      var tail := rest[n..];
      SplitWsRecompose(tail);
      assert SplitWs(s) == [s[..k]] + SplitWs(tail);
      assert SpaceRuns(s) == [rest[..n]] + SpaceRuns(tail);
      InterleaveCons(s[..k], rest[..n], SplitWs(tail), SpaceRuns(tail));
      JoinAtTwo(s, k, k + n);
    }
  }

  /** Only the first and the last token of the split can be empty. */
  lemma {:induction false} SplitWsInnerTokens(s: string)
    ensures forall i :: 0 < i < |SplitWs(s)| - 1 ==> SplitWs(s)[i] != ""
    decreases |s|
  {
    var k := FirstSpace(s, 0);
    if k < |s| {
      var rest := s[k..];
      var tail := rest[LeadingSpace(rest)..];
      SplitWsInnerTokens(tail);
      var r := SplitWs(tail);
      if |r| > 1 {
        assert tail != "" && !IsSpace(tail[0]);
        assert r[0] == tail[..FirstSpace(tail, 0)];
      }
      var toks := SplitWs(s);
      assert toks == [s[..k]] + r;
      forall i | 0 < i < |toks| - 1
        ensures toks[i] != ""
      {
        assert toks[i] == r[i - 1];
      }
    }
  }

  /** A string without whitespace splits into itself, and only such a string does. */
  lemma SplitWsSingle(s: string)
    ensures SplitWs(s) == [s] <==> NoSpace(s)
  {
    var k := FirstSpace(s, 0);
    if k < |s| {
      assert IsSpace(s[k]);
      assert SplitWs(s)[0] == s[..k];
      assert |s[..k]| != |s|;
    }
  }

  /** Every token of the split is a slice of the input, and no token is longer than the input. */
  lemma {:induction false} SplitWsTokensShorter(s: string, i: nat)
    requires i < |SplitWs(s)|
    ensures |SplitWs(s)[i]| <= |s|
    decreases |s|
  {
    var k := FirstSpace(s, 0);
    if k < |s| && i > 0 {
      var rest := s[k..];
      var tail := rest[LeadingSpace(rest)..];
      SplitWsTokensShorter(tail, i - 1);
    }
  }

  // ---------------------------------------------------------------------
  // TextNode.isWhitespace: /^(\s|&nbsp;)*$/

  /** The text consists only of `\s` characters and `&nbsp;` entities. */
  predicate IsWhitespaceText(s: string)
    decreases |s|
  {
    if s == [] then true
    else if IsSpace(s[0]) then IsWhitespaceText(s[1..])
    else StartsWith(s, "&nbsp;") && IsWhitespaceText(s[6..])
  }

  lemma {:induction false} WhitespaceTextPrefixSpace(w: string, s: string)
    requires AllSpace(w)
    ensures IsWhitespaceText(w + s) == IsWhitespaceText(s)
    decreases |w|
  {
    if w != [] {
      var ws := w + s;
      assert ws != [] && ws[0] == w[0] && IsSpace(ws[0]);
      assert ws[1..] == w[1..] + s;
      assert IsWhitespaceText(ws) == IsWhitespaceText(ws[1..]);
      WhitespaceTextPrefixSpace(w[1..], s);
    } else {
      assert w + s == s;
    }
  }

  lemma {:induction false} WhitespaceTextSuffixSpace(s: string, w: string)
    requires AllSpace(w)
    requires IsWhitespaceText(s)
    ensures IsWhitespaceText(s + w)
    decreases |s|
  {
    if s == [] {
      assert s + w == w;
      AllSpaceIsWhitespaceText(w);
    } else if IsSpace(s[0]) {
      assert (s + w)[1..] == s[1..] + w;
      WhitespaceTextSuffixSpace(s[1..], w);
    } else {
      assert (s + w)[..6] == s[..6];
      assert (s + w)[6..] == s[6..] + w;
      WhitespaceTextSuffixSpace(s[6..], w);
    }
  }

  lemma {:induction false} AllSpaceIsWhitespaceText(w: string)
    requires AllSpace(w)
    ensures IsWhitespaceText(w)
    decreases |w|
  {
    if w != [] {
      AllSpaceIsWhitespaceText(w[1..]);
    }
  }

  /**
   * Trimming does not change whether a text is whitespace-only: `trim`
   * removes only `\s` characters from the ends.
   */
  lemma TrimKeepsWhitespaceText(s: string)
    ensures IsWhitespaceText(Trim(s)) == IsWhitespaceText(s)
  {
    var a, b := TrimBounds(s);
    SliceKeepsWhitespaceText(s, a, b);
  }

  /** Cutting only `\s` from both ends of a text keeps its whitespace-ness. */
  lemma SliceKeepsWhitespaceText(s: string, a: nat, b: nat)
    requires a <= b <= |s|
    requires forall i :: 0 <= i < a ==> IsSpace(s[i])
    requires forall i :: b <= i < |s| ==> IsSpace(s[i])
    requires a < b ==> !IsSpace(s[b - 1])
    ensures IsWhitespaceText(s[a..b]) == IsWhitespaceText(s)
  {
    TrimPieces(s, a, b);
    WhitespaceTextPrefixSpace(s[..a], s[a..b] + s[b..]);
    WhitespaceTextSuffixSpaceIff(s[a..b], s[b..]);
  }

  /** The three pieces of a string around a slice `s[a..b]` with only `\s` outside it. */
  lemma TrimPieces(s: string, a: nat, b: nat)
    requires a <= b <= |s|
    requires forall i :: 0 <= i < a ==> IsSpace(s[i])
    requires forall i :: b <= i < |s| ==> IsSpace(s[i])
    requires a < b ==> !IsSpace(s[b - 1])
    ensures s == s[..a] + (s[a..b] + s[b..])
    ensures AllSpace(s[..a]) && AllSpace(s[b..])
    ensures s[a..b] == [] || !IsSpace(s[a..b][|s[a..b]| - 1])
  {
    assert s == s[..a] + (s[a..b] + s[b..]);
  }

  /** Trailing `\s` after a text that does not end in one leaves its whitespace-ness unchanged. */
  lemma WhitespaceTextSuffixSpaceIff(mid: string, tail: string)
    requires AllSpace(tail)
    requires mid == [] || !IsSpace(mid[|mid| - 1])
    ensures IsWhitespaceText(mid + tail) == IsWhitespaceText(mid)
  {
    if IsWhitespaceText(mid) {
      WhitespaceTextSuffixSpace(mid, tail);
    }
    if IsWhitespaceText(mid + tail) {
      WhitespaceTextSuffixSpaceConverse(mid, tail);
    }
  }

  /** The slice `Trim` keeps, with only `\s` outside it and none at its ends. */
  lemma TrimBounds(s: string) returns (a: nat, b: nat)
    ensures a <= b <= |s| && Trim(s) == s[a..b]
    ensures forall i :: 0 <= i < a ==> IsSpace(s[i])
    ensures forall i :: b <= i < |s| ==> IsSpace(s[i])
    ensures a < b ==> !IsSpace(s[b - 1]) && !IsSpace(s[a])
  {
    a := LeadingSpace(s);
    if a == |s| {
      b := a;
    } else {
      var t := TrailingSpace(s);
      assert !IsSpace(s[a]);
      assert t < |s| - a;
      b := |s| - t;
    }
  }

  lemma {:induction false} WhitespaceTextSuffixSpaceConverse(s: string, w: string)
    requires AllSpace(w)
    requires s == [] || !IsSpace(s[|s| - 1])
    requires IsWhitespaceText(s + w)
    ensures IsWhitespaceText(s)
    decreases |s|
  {
    if s != [] {
      if IsSpace(s[0]) {
        assert (s + w)[1..] == s[1..] + w;
        WhitespaceTextSuffixSpaceConverse(s[1..], w);
      } else {
        assert (s + w)[0] == s[0];
        assert StartsWith(s + w, "&nbsp;");
        assert (s + w)[5] == ';';
        if |s| < 6 {
          assert false;
        }
        assert s[..6] == (s + w)[..6];
        assert (s + w)[6..] == s[6..] + w;
        WhitespaceTextSuffixSpaceConverse(s[6..], w);
      }
    }
  }

  // ---------------------------------------------------------------------

  /** ASCII lower-casing (tag names are ASCII by the markup pattern). */
  function ToLowerAscii(s: string): (r: string)
    ensures |r| == |s|
    ensures forall i :: 0 <= i < |s| ==> r[i] == (if 'A' <= s[i] <= 'Z' then (s[i] as int + 32) as char else s[i])
  {
    if s == [] then [] else
      var c := s[0];
      [if 'A' <= c <= 'Z' then (c as int + 32) as char else c] + ToLowerAscii(s[1..])
  }
}
