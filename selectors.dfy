/**
 * Compiled selector segments and the checks the matcher runs against an
 * element: a segment is one compound selector (`tag#id.class[attr op value]`)
 * of a descendant chain, and its checker is the conjunction of one check
 * per present part.
 */
module Selectors {
  import opened Wrappers
  import opened Strings
  import opened Attributes

  /** The attribute operators: none (existence), `=`, `!=`, `^=`, `$=`, `*=`, `|=`, `~=`. */
  datatype Operator = Exists | Equals | NotEquals | Prefix | Suffix | Substring | DashMatch | Includes

  datatype AttrTest = AttrTest(key: string, op: Operator, value: string)

  /** One compound selector: empty strings and lists stand for absent parts. */
  datatype Segment = Segment(tag: string, id: string, classes: seq<string>, attrs: seq<AttrTest>)

  /** What a checker reads of an element: its tag, id, class list and decoded attributes. */
  datatype ElementView = ElementView(tagName: string, id: string, classNames: seq<string>, attributes: Dict)

  /** The attribute checker built for one test. */
  predicate AttrTestHolds(t: AttrTest, e: ElementView) {
    var a := Get(e.attributes, t.key);
    match t.op
    case Equals => a == Some(t.value)
    case NotEquals => a != Some(t.value)
    case Prefix => a.Some? && StartsWith(a.value, t.value)
    case Suffix => a.Some? && EndsWith(a.value, t.value)
    case Substring => a.Some? && Contains(a.value, t.value)
    case DashMatch => a.Some? && (a.value == t.value || StartsWith(a.value, t.value + "-"))
    case Includes => a.Some? && t.value in SplitWs(a.value)
    case Exists => a.Some?
  }

  /** `attrChecks.every(check => check(element))` */
  predicate AllTestsHold(ts: seq<AttrTest>, e: ElementView) {
    ts == [] || (AttrTestHolds(ts[0], e) && AllTestsHold(ts[1..], e))
  }

  /** One entry of the list of checks a segment compiles to. */
  datatype Check = TagIs(tag: string) | IdIs(id: string) | HasClass(name: string) | AttrsAll(tests: seq<AttrTest>)

  predicate CheckHolds(c: Check, e: ElementView) {
    match c
    case TagIs(t) => e.tagName == t
    case IdIs(i) => e.id == i
    case HasClass(n) => n in e.classNames
    case AttrsAll(ts) => AllTestsHold(ts, e)
  }

  function ClassChecks(classes: seq<string>): (cs: seq<Check>)
    ensures |cs| == |classes|
  {
    if classes == [] then [] else [HasClass(classes[0])] + ClassChecks(classes[1..])
  }

  /** The checks pushed for a segment: only for the parts that are present. */
  function ChecksOf(s: Segment): seq<Check> {
    (if s.tag != "" && s.tag != "*" then [TagIs(s.tag)] else [])
    + (if s.id != "" then [IdIs(s.id)] else [])
    + ClassChecks(s.classes)
    + (if |s.attrs| > 0 then [AttrsAll(s.attrs)] else [])
  }

  /** `checks.every(check => check(element))` */
  predicate AllHold(cs: seq<Check>, e: ElementView) {
    cs == [] || (CheckHolds(cs[0], e) && AllHold(cs[1..], e))
  }

  /** The checker of a segment. */
  predicate SegmentAccepts(s: Segment, e: ElementView) {
    AllHold(ChecksOf(s), e)
  }

  lemma {:induction false} AllHoldAppend(a: seq<Check>, b: seq<Check>, e: ElementView)
    ensures AllHold(a + b, e) <==> AllHold(a, e) && AllHold(b, e)
  {
    if a != [] {
      assert (a + b)[1..] == a[1..] + b;
      AllHoldAppend(a[1..], b, e);
    } else {
      assert a + b == b;
    }
  }

  lemma {:induction false} ClassChecksHold(classes: seq<string>, e: ElementView)
    ensures AllHold(ClassChecks(classes), e) <==> forall c :: c in classes ==> c in e.classNames
  {
    if classes != [] {
      ClassChecksHold(classes[1..], e);
      assert forall c :: c in classes <==> c == classes[0] || c in classes[1..];
    }
  }

  lemma {:induction false} AllTestsHoldIff(ts: seq<AttrTest>, e: ElementView)
    ensures AllTestsHold(ts, e) <==> forall t :: t in ts ==> AttrTestHolds(t, e)
  {
    if ts != [] {
      AllTestsHoldIff(ts[1..], e);
      assert forall t :: t in ts <==> t == ts[0] || t in ts[1..];
    }
  }

  /**
   * A segment accepts an element exactly when every part it has holds: a
   * tag of "" or "*" imposes nothing, otherwise tag and id compare exactly,
   * every listed class is among the element's classes and every attribute
   * test holds.
   */
  lemma SegmentAcceptsIff(s: Segment, e: ElementView)
    ensures SegmentAccepts(s, e) <==>
              (s.tag == "" || s.tag == "*" || e.tagName == s.tag) &&
              (s.id == "" || e.id == s.id) &&
              (forall c :: c in s.classes ==> c in e.classNames) &&
              (forall t :: t in s.attrs ==> AttrTestHolds(t, e))
  {
    var tagChecks: seq<Check> := if s.tag != "" && s.tag != "*" then [TagIs(s.tag)] else [];
    var idChecks: seq<Check> := if s.id != "" then [IdIs(s.id)] else [];
    var attrChecks: seq<Check> := if |s.attrs| > 0 then [AttrsAll(s.attrs)] else [];
    assert ChecksOf(s) == tagChecks + idChecks + ClassChecks(s.classes) + attrChecks;
    AllHoldAppend(tagChecks + idChecks + ClassChecks(s.classes), attrChecks, e);
    AllHoldAppend(tagChecks + idChecks, ClassChecks(s.classes), e);
    AllHoldAppend(tagChecks, idChecks, e);
    ClassChecksHold(s.classes, e);
    AllTestsHoldIff(s.attrs, e);
    if |s.attrs| > 0 {
      assert AllHold(attrChecks, e) <==> AllTestsHold(s.attrs, e) by {
        assert attrChecks[1..] == [];
      }
    }
    if tagChecks != [] {
      assert tagChecks[1..] == [];
    }
    if idChecks != [] {
      assert idChecks[1..] == [];
    }
  }

  /** The empty segment accepts every element. */
  lemma EmptySegmentAcceptsAll(e: ElementView)
    ensures SegmentAccepts(Segment("", "", [], []), e)
  {
    SegmentAcceptsIff(Segment("", "", [], []), e);
  }

  /** An element lacking the attribute passes `!=` and fails every other test. */
  lemma AbsentAttribute(t: AttrTest, e: ElementView)
    requires !HasKey(e.attributes, t.key)
    ensures AttrTestHolds(t, e) <==> t.op == NotEquals
  {
  }

  /** No operator is an existence test. */
  lemma ExistsIff(key: string, v: string, e: ElementView)
    ensures AttrTestHolds(AttrTest(key, Exists, v), e) <==> HasKey(e.attributes, key)
  {
  }

  /** `|=` accepts exactly the operand, or the operand followed by `-` and anything. */
  lemma DashMatchIff(key: string, v: string, e: ElementView)
    ensures AttrTestHolds(AttrTest(key, DashMatch, v), e) <==>
              exists a :: Get(e.attributes, key) == Some(a) &&
                (a == v || (|a| > |v| && a[..|v|] == v && a[|v|] == '-'))
  {
    var g := Get(e.attributes, key);
    if g.Some? {
      var a := g.value;
      assert StartsWith(a, v + "-") <==> (|a| > |v| && a[..|v|] == v && a[|v|] == '-') by {
        if |a| > |v| {
          assert (v + "-")[|v|] == '-';
          assert a[..|v| + 1] == a[..|v|] + [a[|v|]];
        }
      }
    }
  }

  /** `~=` against a value with no whitespace is plain equality. */
  lemma IncludesSingleToken(key: string, v: string, e: ElementView)
    requires Get(e.attributes, key).Some? && NoSpace(Get(e.attributes, key).value)
    ensures AttrTestHolds(AttrTest(key, Includes, v), e) <==> Get(e.attributes, key) == Some(v)
  {
    SplitWsSingle(Get(e.attributes, key).value);
  }

  /** `~=` never accepts an operand containing whitespace, since no token of the split does. */
  lemma IncludesRejectsSpacedOperand(key: string, v: string, e: ElementView)
    requires !NoSpace(v)
    ensures !AttrTestHolds(AttrTest(key, Includes, v), e)
  {
  }
}
