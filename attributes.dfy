/**
 * The attribute store of an element: JavaScript plain objects used as
 * insertion-ordered dictionaries, the scanner behind the `rawAttributes`
 * getter (the attribute pattern), the scanner behind the constructor's
 * id/class projection (the id/class pattern), and the attribute string
 * that `setAttribute`/`setAttributes` rebuild.
 */
module Attributes {
  import opened Wrappers
  import opened Strings

  datatype Attr = Attr(name: string, value: string)

  /** A JavaScript object used as a string dictionary: its entries in key order. */
  type Dict = seq<Attr>

  /** The keys, in order (`Object.keys`). */
  function Keys(d: Dict): (r: seq<string>)
    ensures |r| == |d|
  {
    if d == [] then [] else [d[0].name] + Keys(d[1..])
  }

  lemma {:induction false} KeysAt(d: Dict, i: nat)
    requires i < |d|
    ensures Keys(d)[i] == d[i].name
  {
    if i > 0 {
      KeysAt(d[1..], i - 1);
    }
  }

  /** `k in obj` */
  predicate HasKey(d: Dict, k: string) {
    d != [] && (d[0].name == k || HasKey(d[1..], k))
  }

  /** No key occurs twice, as in every object. */
  predicate UniqueKeys(d: Dict) {
    d == [] || (!HasKey(d[1..], d[0].name) && UniqueKeys(d[1..]))
  }

  lemma {:induction false} HasKeyAt(d: Dict, i: nat)
    requires i < |d|
    ensures HasKey(d, d[i].name)
  {
    if i > 0 {
      assert d[1..][i - 1] == d[i];
      HasKeyAt(d[1..], i - 1);
    }
  }

  lemma {:induction false} HasKeyAppend(d: Dict, a: Attr, k: string)
    ensures HasKey(d + [a], k) <==> HasKey(d, k) || a.name == k
  {
    if d != [] {
      assert (d + [a])[1..] == d[1..] + [a];
      HasKeyAppend(d[1..], a, k);
    } else {
      assert ([a])[1..] == [];
    }
  }

  /** A dictionary extended at the end stays duplicate-free exactly when the new key is fresh. */
  lemma {:induction false} UniqueKeysAppend(d: Dict, a: Attr)
    ensures UniqueKeys(d + [a]) <==> UniqueKeys(d) && !HasKey(d, a.name)
  {
    if d != [] {
      assert (d + [a])[1..] == d[1..] + [a];
      UniqueKeysAppend(d[1..], a);
      HasKeyAppend(d[1..], a, d[0].name);
    } else {
      assert ([a])[1..] == [];
    }
  }

  /** Every prefix of a duplicate-free dictionary is duplicate-free and lacks the keys after it. */
  lemma {:induction false} UniquePrefix(d: Dict, j: nat)
    requires UniqueKeys(d) && j < |d|
    ensures UniqueKeys(d[..j]) && !HasKey(d[..j], d[j].name)
    decreases |d| - j
  {
    assert d[..j + 1] == d[..j] + [d[j]];
    if j + 1 < |d| {
      UniquePrefix(d, j + 1);
    } else {
      assert d[..j + 1] == d;
    }
    UniqueKeysAppend(d[..j], d[j]);
  }

  /** `obj[k]`: the value stored under `k`, or `undefined`. */
  function Get(d: Dict, k: string): (r: Option<string>)
    ensures r.None? <==> !HasKey(d, k)
  {
    if d == [] then None
    else if d[0].name == k then Some(d[0].value)
    else Get(d[1..], k)
  }

  /** In a duplicate-free dictionary the value under a key is the one its entry carries. */
  lemma {:induction false} GetUnique(d: Dict, i: nat)
    requires UniqueKeys(d) && i < |d|
    ensures Get(d, d[i].name) == Some(d[i].value)
  {
    if i > 0 {
      assert d[1..][i - 1] == d[i];
      HasKeyAt(d[1..], i - 1);
      GetUnique(d[1..], i - 1);
    }
  }

  /** `obj[k] = v`: an existing key keeps its place, a new key goes last, other keys are untouched. */
  function Set(d: Dict, k: string, v: string): (r: Dict)
    ensures Get(r, k) == Some(v)
    ensures forall k' :: k' != k ==> Get(r, k') == Get(d, k')
    ensures forall k' :: HasKey(r, k') <==> HasKey(d, k') || k' == k
    ensures UniqueKeys(d) ==> UniqueKeys(r)
  {
    if d == [] then [Attr(k, v)]
    else if d[0].name == k then [Attr(k, v)] + d[1..]
    else [d[0]] + Set(d[1..], k, v)
  }

  /** Assignment to an existing key keeps the key order. */
  lemma {:induction false} SetKeys(d: Dict, k: string, v: string)
    requires HasKey(d, k)
    ensures Keys(Set(d, k, v)) == Keys(d)
  {
    if d[0].name != k {
      SetKeys(d[1..], k, v);
    }
  }

  /** Assignment to a new key appends it. */
  lemma {:induction false} SetAppends(d: Dict, k: string, v: string)
    requires !HasKey(d, k)
    ensures Set(d, k, v) == d + [Attr(k, v)]
  {
    if d != [] {
      SetAppends(d[1..], k, v);
      assert [d[0]] + (d[1..] + [Attr(k, v)]) == d + [Attr(k, v)];
    }
  }

  /** `delete obj[k]`: the other entries keep their order. */
  function Delete(d: Dict, k: string): (r: Dict)
    ensures Get(r, k) == None
    ensures forall k' :: k' != k ==> Get(r, k') == Get(d, k')
    ensures forall k' :: HasKey(r, k') <==> HasKey(d, k') && k' != k
    ensures UniqueKeys(d) ==> UniqueKeys(r)
    ensures !HasKey(d, k) ==> r == d
  {
    if d == [] then []
    else if d[0].name == k then Delete(d[1..], k)
    else [d[0]] + Delete(d[1..], k)
  }

  lemma {:induction false} UniqueSuffix(d: Dict, i: nat)
    requires UniqueKeys(d) && i <= |d|
    ensures UniqueKeys(d[i..])
  {
    if i > 0 {
      assert d[i..] == d[1..][i - 1..];
      UniqueSuffix(d[1..], i - 1);
    }
  }

  /** Deleting the first key of a duplicate-free dictionary drops its first entry. */
  lemma DeleteFirst(d: Dict)
    requires UniqueKeys(d) && d != []
    ensures Delete(d, d[0].name) == d[1..]
  {
  }

  /** The value the last entry named `k` carries in a list of scanned pairs. */
  function LastValue(ps: seq<Attr>, k: string): Option<string>
  {
    if ps == [] then None
    else if ps[|ps| - 1].name == k then Some(ps[|ps| - 1].value)
    else LastValue(ps[..|ps| - 1], k)
  }

  /** The object built by `obj[key] = value` for each scanned pair in turn. */
  function FromPairs(ps: seq<Attr>): (r: Dict)
    ensures UniqueKeys(r)
    ensures forall k :: Get(r, k) == LastValue(ps, k)
  {
    if ps == [] then []
    else
      var last := ps[|ps| - 1];
      Set(FromPairs(ps[..|ps| - 1]), last.name, last.value)
  }

  /** Pairs whose keys are already distinct come out as they went in. */
  lemma {:induction false} FromDistinctPairs(ps: seq<Attr>)
    requires UniqueKeys(ps)
    ensures FromPairs(ps) == ps
  {
    if ps != [] {
      var init, last := ps[..|ps| - 1], ps[|ps| - 1];
      assert init + [last] == ps;
      UniqueKeysAppend(init, last);
      FromDistinctPairs(init);
      SetAppends(init, last.name, last.value);
    }
  }

  /** Applies `f` to every value, keeping keys and their order. */
  function MapValues(d: Dict, f: string -> string): (r: Dict)
    ensures Keys(r) == Keys(d)
    ensures forall k :: HasKey(r, k) == HasKey(d, k)
    ensures UniqueKeys(r) == UniqueKeys(d)
    ensures forall k :: Get(r, k) == (if Get(d, k).Some? then Some(f(Get(d, k).value)) else None)
  {
    if d == [] then [] else [Attr(d[0].name, f(d[0].value))] + MapValues(d[1..], f)
  }

  lemma {:induction false} MapValuesAppend(d: Dict, a: Attr, f: string -> string)
    ensures MapValues(d + [a], f) == MapValues(d, f) + [Attr(a.name, f(a.value))]
  {
    if d != [] {
      assert (d + [a])[1..] == d[1..] + [a];
      MapValuesAppend(d[1..], a, f);
    } else {
      assert [a][1..] == [];
    }
  }

  lemma {:induction false} MapValuesIdentity(d: Dict)
    ensures MapValues(d, s => s) == d
  {
    if d != [] {
      MapValuesIdentity(d[1..]);
    }
  }

  /**
   * Empties the object `d` key by key, then assigns every key of `src` in
   * its order with its value passed through `f`: the pair of `forEach`
   * loops `setAttributes` runs on each attribute map.
   */
  method Refill(d: Dict, src: Dict, f: string -> string) returns (r: Dict)
    requires UniqueKeys(d) && UniqueKeys(src)
    ensures r == MapValues(src, f)
  {
    var keys := Keys(d);
    r := d;
    var i := 0;
    while i < |keys|
      invariant 0 <= i <= |keys|
      invariant r == d[i..]
    {
      KeysAt(d, i);
      UniqueSuffix(d, i);
      assert d[i..][1..] == d[i + 1..];
      DeleteFirst(r);
      r := Delete(r, keys[i]);
      i := i + 1;
    }
    keys := Keys(src);
    i := 0;
    while i < |keys|
      invariant 0 <= i <= |keys|
      invariant r == MapValues(src[..i], f)
    {
      KeysAt(src, i);
      UniquePrefix(src, i);
      GetUnique(src, i);
      SetAppends(r, keys[i], f(Get(src, keys[i]).value));
      r := Set(r, keys[i], f(Get(src, keys[i]).value));
      assert src[..i + 1] == src[..i] + [src[i]];
      MapValuesAppend(src[..i], src[i], f);
      i := i + 1;
    }
    assert src[..|keys|] == src;
  }

  // ---------------------------------------------------------------------
  // The attribute string rebuilt by setAttribute/setAttributes

  /** One key of the rebuilt attribute string: `k` for an empty value, else `k="encode(v)"`. */
  function Entry(a: Attr, encode: string -> string): string {
    a.name + if a.value == "" then "" else "=\"" + encode(a.value) + "\""
  }

  /** The entries joined with single spaces. */
  function Serialize(d: Dict, encode: string -> string): string
  {
    if d == [] then ""
    else if |d| == 1 then Entry(d[0], encode)
    else Entry(d[0], encode) + " " + Serialize(d[1..], encode)
  }

  /** What re-scanning a rebuilt attribute string is expected to give: the encoded values. */
  function Encoded(d: Dict, encode: string -> string): (r: Dict)
    ensures Keys(r) == Keys(d)
    ensures forall k :: HasKey(r, k) == HasKey(d, k)
    ensures UniqueKeys(r) == UniqueKeys(d)
  {
    if d == [] then []
    else [Attr(d[0].name, if d[0].value == "" then "" else encode(d[0].value))] + Encoded(d[1..], encode)
  }

  // ---------------------------------------------------------------------
  // The attribute pattern: ([a-z][-.:0-9_a-z]*)(\s*=\s*("([^"]*)"|'([^']*)'|(\S+)))?  (flags i, g)

  predicate IsAsciiLetter(c: char) {
    'a' <= c <= 'z' || 'A' <= c <= 'Z'
  }

  predicate IsNameChar(c: char) {
    IsAsciiLetter(c) || '0' <= c <= '9' || c == '-' || c == '.' || c == ':' || c == '_'
  }

  /** A key the attribute pattern reads as a whole. */
  predicate IsAttrName(k: string) {
    |k| > 0 && IsAsciiLetter(k[0]) && forall i :: 0 <= i < |k| ==> IsNameChar(k[i])
  }

  /** Index of the first ASCII letter, or `|s|`: where the next match starts. */
  function FindLetter(s: string): (k: nat)
    ensures k <= |s|
    ensures k < |s| ==> IsAsciiLetter(s[k])
    ensures forall i :: 0 <= i < k ==> !IsAsciiLetter(s[i])
  {
    if s == [] || IsAsciiLetter(s[0]) then 0 else 1 + FindLetter(s[1..])
  }

  /** Length of the longest prefix of name characters. */
  function NameLen(t: string): (n: nat)
    ensures n <= |t|
    ensures forall i :: 0 <= i < n ==> IsNameChar(t[i])
    ensures n < |t| ==> !IsNameChar(t[n])
  {
    if t == [] || !IsNameChar(t[0]) then 0 else 1 + NameLen(t[1..])
  }

  /** Where a value starts after `\s*=\s*` at the start of `r`, or None when no `=` follows. */
  function ValueStart(r: string): (k: Option<nat>)
    ensures k.Some? ==> 0 < k.value <= |r|
  {
    var a := LeadingSpace(r);
    if a < |r| && r[a] == '=' then Some(a + 1 + LeadingSpace(r[a + 1..])) else None
  }

  /** A value quoted by `q` at the start of `w`: its text and the length through the closing quote. */
  function QuotedAt(w: string, q: char): (v: Option<(string, nat)>)
    ensures v.Some? ==> 1 < v.value.1 <= |w|
  {
    if w != [] && w[0] == q then
      var k := IndexOf(w, [q], 1);
      if k == -1 then None else Some((w[1..k], k + 1))
    else
      None
  }

  /**
   * The optional value part at the start of `r`, with the number of
   * characters it spans. Each alternative is tried in the pattern's order;
   * backtracking the greedy `\s*` cannot help, since the characters it
   * gives back are whitespace, which no alternative can start with.
   */
  function ValuePart(r: string): (v: Option<(string, nat)>)
    ensures v.Some? ==> 0 < v.value.1 <= |r|
  {
    match ValueStart(r)
    case None => None
    case Some(st) =>
      var w := r[st..];
      var dq := QuotedAt(w, '"');
      var sq := QuotedAt(w, '\'');
      if dq.Some? then Some((dq.value.0, st + dq.value.1))
      else if sq.Some? then Some((sq.value.0, st + sq.value.1))
      else if w != [] then Some((w[..FirstSpace(w, 0)], st + FirstSpace(w, 0)))
      else None
  }

  /** The match at the start of `t` (which starts with a letter): the pair and its length. */
  function MatchAttr(t: string): (m: (Attr, nat))
    requires t != [] && IsAsciiLetter(t[0])
    ensures 0 < m.1 <= |t|
    ensures IsAttrName(m.0.name) && StartsWith(t, m.0.name)
  {
    var n := NameLen(t);
    match ValuePart(t[n..])
    case Some((v, len)) => (Attr(t[..n], v), n + len)
    case None => (Attr(t[..n], ""), n)
  }

  /** Every match of the attribute pattern in `s`, in order (the `exec` loop). */
  function ScanAttrs(s: string): (r: seq<Attr>)
    ensures forall i :: 0 <= i < |r| ==> IsAttrName(r[i].name)
    decreases |s|, 1
  {
    ScanFrom(s[FindLetter(s)..])
  }

  /** The matches from the next letter on, or none at the end of the input. */
  function ScanFrom(t: string): (r: seq<Attr>)
    requires t == [] || IsAsciiLetter(t[0])
    ensures forall i :: 0 <= i < |r| ==> IsAttrName(r[i].name)
    decreases |t|, 0
  {
    if t == [] then []
    else
      var m := MatchAttr(t);
      [m.0] + ScanAttrs(t[m.1..])
  }

  /** The `rawAttributes` getter before caching: later keys overwrite earlier ones. */
  function ParseRawAttributes(raw: string): (r: Dict)
    ensures UniqueKeys(r)
    ensures forall k :: Get(r, k) == LastValue(ScanAttrs(raw), k)
  {
    if raw == "" then [] else FromPairs(ScanAttrs(raw))
  }

  lemma FindLetterSpace(s: string)
    ensures FindLetter(" " + s) == 1 + FindLetter(s)
  {
    assert (" " + s)[1..] == s;
  }

  /** Leading blanks are skipped by the search for the next match. */
  lemma ScanAttrsSkipsSpace(s: string)
    ensures ScanAttrs(" " + s) == ScanAttrs(s)
  {
    var t := " " + s;
    FindLetterSpace(s);
    assert t[1 + FindLetter(s)..] == s[FindLetter(s)..];
  }

  /** No value part follows a key that is followed by a space and a letter, or by nothing. */
  lemma ValuePartAbsent(rest: string)
    requires rest == [] || (rest[0] == ' ' && (|rest| == 1 || IsAsciiLetter(rest[1])))
    ensures ValuePart(rest) == None
  {
    if |rest| > 1 {
      assert rest[1..][0] == rest[1];
      assert LeadingSpace(rest[1..]) == 0;
    }
  }

  /** A double-quoted value without inner quotes is read whole. */
  lemma ValuePartQuoted(v: string, rest: string)
    requires '"' !in v
    ensures ValuePart("=\"" + v + "\"" + rest) == Some((v, |v| + 3))
  {
    var r := "=\"" + v + "\"" + rest;
    assert LeadingSpace(r) == 0;
    var u := r[1..];
    assert u == "\"" + v + "\"" + rest;
    assert LeadingSpace(u) == 0;
    assert u[0..] == u;
    ClosingQuote(v, rest);
    assert u[1..|v| + 1] == v;
  }

  /** A match starting with a whole key reads that key, then the value part after it. */
  lemma MatchAfterName(k: string, r: string)
    requires IsAttrName(k)
    requires r == [] || !IsNameChar(r[0])
    ensures MatchAttr(k + r) ==
              match ValuePart(r)
              case Some((v, len)) => (Attr(k, v), |k| + len)
              case None => (Attr(k, ""), |k|)
  {
    var t := k + r;
    NameLenOfName(k, r);
    assert t[..|k|] == k && t[|k|..] == r;
  }

  /** An entry with an empty value is the key alone: the match is the key, with an empty value. */
  lemma MatchBare(a: Attr, encode: string -> string, rest: string)
    requires IsAttrName(a.name) && a.value == ""
    requires rest == [] || (rest[0] == ' ' && (|rest| == 1 || IsAsciiLetter(rest[1])))
    ensures MatchAttr(Entry(a, encode) + rest) == (Attr(a.name, ""), |Entry(a, encode)|)
  {
    assert Entry(a, encode) == a.name;
    MatchAfterName(a.name, rest);
    ValuePartAbsent(rest);
  }

  /** A key with a double-quoted value: the match spans both quotes. */
  lemma MatchQuotedText(e: string, k: string, v: string, rest: string)
    requires IsAttrName(k) && '"' !in v
    requires e == k + ("=\"" + v + "\"")
    ensures e + rest != [] && IsAsciiLetter((e + rest)[0])
    ensures MatchAttr(e + rest) == (Attr(k, v), |e|)
  {
    var r := "=\"" + v + "\"" + rest;
    QuotedJoin(e, k, v, rest);
    ValuePartQuoted(v, rest);
    MatchAfterValue(e + rest, k, r, v, |v| + 3, |e|);
  }

  /** A whole key followed by a value part: the match reads both, `total` characters in all. */
  lemma MatchAfterValue(t: string, k: string, r: string, v: string, len: nat, total: nat)
    requires IsAttrName(k) && r != [] && !IsNameChar(r[0]) && t == k + r
    requires ValuePart(r) == Some((v, len)) && total == |k| + len
    ensures t != [] && IsAsciiLetter(t[0])
    ensures MatchAttr(t) == (Attr(k, v), total)
  {
    MatchAfterName(k, r);
  }

  lemma QuotedJoin(e: string, k: string, v: string, rest: string)
    requires e == k + ("=\"" + v + "\"")
    ensures e + rest == k + ("=\"" + v + "\"" + rest) && |e| == |k| + |v| + 3
    ensures ("=\"" + v + "\"" + rest)[0] == '='
    ensures |k| > 0 ==> (e + rest)[0] == k[0]
  {
  }

  /** An entry with a value is the key and the double-quoted value: the match spans both quotes. */
  lemma MatchQuoted(a: Attr, encode: string -> string, rest: string)
    requires IsAttrName(a.name) && a.value != "" && '"' !in encode(a.value)
    ensures MatchAttr(Entry(a, encode) + rest) == (Attr(a.name, encode(a.value)), |Entry(a, encode)|)
  {
    MatchQuotedText(Entry(a, encode), a.name, encode(a.value), rest);
  }

  /** The match at the start of an entry followed by a space and a letter, or by nothing. */
  lemma MatchEntry(a: Attr, encode: string -> string, rest: string)
    requires IsAttrName(a.name)
    requires '"' !in encode(a.value)
    requires rest == [] || (rest[0] == ' ' && (|rest| == 1 || IsAsciiLetter(rest[1])))
    ensures var t := Entry(a, encode) + rest;
            t != [] && IsAsciiLetter(t[0]) &&
            MatchAttr(t) == (Attr(a.name, if a.value == "" then "" else encode(a.value)), |Entry(a, encode)|)
  {
    assert (Entry(a, encode) + rest)[0] == a.name[0];
    if a.value == "" {
      MatchBare(a, encode, rest);
    } else {
      MatchQuoted(a, encode, rest);
    }
  }

  /** Scanning an entry followed by a space and a letter, or by nothing, reads exactly that entry. */
  lemma ScanEntry(a: Attr, encode: string -> string, rest: string)
    requires IsAttrName(a.name)
    requires '"' !in encode(a.value)
    requires rest == [] || (rest[0] == ' ' && (|rest| == 1 || IsAsciiLetter(rest[1])))
    ensures ScanAttrs(Entry(a, encode) + rest) ==
              [Attr(a.name, if a.value == "" then "" else encode(a.value))] + ScanAttrs(rest)
  {
    var e := Entry(a, encode);
    var t := e + rest;
    MatchEntry(a, encode, rest);
    assert FindLetter(t) == 0;
    assert t[0..] == t;
    assert t[|e|..] == rest;
  }

  lemma {:induction false} NameLenOfName(k: string, r: string)
    requires |k| > 0 && forall i :: 0 <= i < |k| ==> IsNameChar(k[i])
    requires r == [] || !IsNameChar(r[0])
    ensures NameLen(k + r) == |k|
  {
    if |k| > 1 {
      assert (k + r)[1..] == k[1..] + r;
      NameLenOfName(k[1..], r);
    } else {
      assert (k + r)[1..] == r;
    }
  }

  lemma ClosingQuote(v: string, rest: string)
    requires '"' !in v
    ensures IndexOf("\"" + v + "\"" + rest, "\"", 1) == |v| + 1
  {
    var u := "\"" + v + "\"" + rest;
    var r := IndexOf(u, "\"", 1);
    assert OccursAt(u, "\"", |v| + 1) by {
      assert u[|v| + 1..|v| + 2] == "\"";
    }
    forall k | 1 <= k < |v| + 1 ensures !OccursAt(u, "\"", k) {
      assert u[k] == v[k - 1];
    }
  }

  /**
   * Round trip of the rebuilt attribute string: scanning what
   * `setAttribute`/`setAttributes` write gives back every key, in order,
   * with its encoded value, provided every key is a name the attribute
   * pattern reads whole and no encoded value contains a double quote.
   */
  lemma {:induction false} ScanSerialized(d: Dict, encode: string -> string)
    requires forall i :: 0 <= i < |d| ==> IsAttrName(d[i].name) && '"' !in encode(d[i].value)
    ensures ScanAttrs(Serialize(d, encode)) == Encoded(d, encode)
  {
    if |d| == 1 {
      ScanEntry(d[0], encode, "");
      assert Serialize(d, encode) == Entry(d[0], encode) + "";
    } else if |d| > 1 {
      var tail := Serialize(d[1..], encode);
      assert forall i :: 0 <= i < |d[1..]| ==> d[1..][i] == d[i + 1];
      ScanSerialized(d[1..], encode);
      EntryStart(d[1..], encode);
      ScanAttrsSkipsSpace(tail);
      ScanEntry(d[0], encode, " " + tail);
      SerializeCons(d, encode);
    }
  }

  lemma SerializeCons(d: Dict, encode: string -> string)
    requires |d| > 1
    ensures Serialize(d, encode) == Entry(d[0], encode) + (" " + Serialize(d[1..], encode))
  {
  }

  lemma EntryStart(d: Dict, encode: string -> string)
    requires |d| > 0 && IsAttrName(d[0].name)
    ensures |Serialize(d, encode)| > 0 && IsAsciiLetter(Serialize(d, encode)[0])
  {
    var e := Entry(d[0], encode);
    assert e[0] == d[0].name[0];
    if |d| > 1 {
      assert Serialize(d, encode) == e + (" " + Serialize(d[1..], encode));
    }
  }

  /**
   * The `rawAttributes` getter applied to a rebuilt attribute string with
   * distinct, well-formed keys gives the encoded dictionary.
   */
  lemma RawAttributesOfSerialized(d: Dict, encode: string -> string)
    requires UniqueKeys(d)
    requires forall i :: 0 <= i < |d| ==> IsAttrName(d[i].name) && '"' !in encode(d[i].value)
    ensures ParseRawAttributes(Serialize(d, encode)) == Encoded(d, encode)
  {
    ScanSerialized(d, encode);
    FromDistinctPairs(Encoded(d, encode));
    if Serialize(d, encode) == "" {
      assert ScanAttrs("") == [];
    }
  }

  // ---------------------------------------------------------------------
  // The id/class pattern: (^|\s)(id|class)\s*=\s*("([^"]+)"|'([^']+)'|(\S+))  (flags i, g)

  /** Length of a case-insensitive `id` or `class` at the start of `t`, or 0. */
  function IdClassKeyLen(t: string): (n: nat)
    ensures n == 0 || n == 2 || n == 5
    ensures n <= |t|
  {
    if |t| >= 2 && t[0] in "iI" && t[1] in "dD" then 2
    else if |t| >= 5 && t[0] in "cC" && t[1] in "lL" && t[2] in "aA" && t[3] in "sS" && t[4] in "sS" then 5
    else 0
  }

  /** The value part `\s*=\s*("([^"]+)"|'([^']+)'|(\S+))` at the start of `r`: quoted values must be non-empty. */
  function IdClassValue(r: string): (v: Option<(string, nat)>)
    ensures v.Some? ==> 0 < v.value.1 <= |r| && v.value.0 != ""
  {
    match ValueStart(r)
    case None => None
    case Some(st) =>
      var w := r[st..];
      var dq := QuotedAt(w, '"');
      var sq := QuotedAt(w, '\'');
      if dq.Some? && dq.value.0 != "" then Some((dq.value.0, st + dq.value.1))
      else if sq.Some? && sq.value.0 != "" then Some((sq.value.0, st + sq.value.1))
      else if w != [] then Some((w[..FirstSpace(w, 0)], st + FirstSpace(w, 0)))
      else None
  }

  /** The key and value of a match whose key starts at `j`, and where the match ends. */
  function IdClassKeyAt(s: string, j: nat): (m: Option<(Attr, nat)>)
    ensures m.Some? ==> j < m.value.1 <= |s|
  {
    if j >= |s| then None
    else
      var t := s[j..];
      var n := IdClassKeyLen(t);
      if n == 0 then None
      else match IdClassValue(t[n..])
        case Some((v, len)) => Some((Attr(t[..n], v), j + n + len))
        case None => None
  }

  /** A match starting at `i`: `^` is tried first at the start of the string, then `\s`. */
  function IdClassAt(s: string, i: nat): (m: Option<(Attr, nat)>)
    ensures m.Some? ==> i < m.value.1 <= |s|
  {
    var viaStart := if i == 0 then IdClassKeyAt(s, 0) else None;
    if viaStart.Some? then viaStart
    else if i < |s| && IsSpace(s[i]) then IdClassKeyAt(s, i + 1)
    else None
  }

  /** Every match of the id/class pattern from position `p` on, in order. */
  function IdClassScan(s: string, p: nat): (r: seq<Attr>)
    ensures forall i :: 0 <= i < |r| ==> r[i].value != ""
    decreases |s| - p
  {
    if p >= |s| then []
    else match IdClassAt(s, p)
      case Some((a, e)) => [a] + IdClassScan(s, e)
      case None => IdClassScan(s, p + 1)
  }

  /** A last value drawn from values that are never empty is not empty. */
  lemma {:induction false} LastValueNonEmpty(ps: seq<Attr>, k: string)
    requires forall i :: 0 <= i < |ps| ==> ps[i].value != ""
    ensures LastValue(ps, k).Some? ==> LastValue(ps, k).value != ""
  {
    if ps != [] && ps[|ps| - 1].name != k {
      LastValueNonEmpty(ps[..|ps| - 1], k);
    }
  }

  /**
   * The `id` the constructor derives from a raw attribute string: empty
   * exactly when the id/class pattern finds no `id`, since its values are
   * never empty.
   */
  function IdOf(raw: string): (r: string)
    ensures r == "" <==> LastValue(IdClassScan(raw, 0), "id").None?
  {
    LastValueNonEmpty(IdClassScan(raw, 0), "id");
    LastValue(IdClassScan(raw, 0), "id").GetOr("")
  }

  /**
   * The `classNames` the constructor derives from a raw attribute string:
   * none exactly when the pattern finds no `class`, and no name holds `\s`.
   */
  function ClassNamesOf(raw: string): (r: seq<string>)
    ensures r == [] <==> LastValue(IdClassScan(raw, 0), "class").None?
    ensures forall i :: 0 <= i < |r| ==> NoSpace(r[i])
  {
    match LastValue(IdClassScan(raw, 0), "class")
    case Some(v) => SplitWs(v)
    case None => []
  }
}
