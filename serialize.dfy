/**
 * Rendering a tree back to text: `toString` (the outer HTML), `innerHTML`
 * (the children's renderings joined) and `rawText` (the text of every
 * descendant text or comment node, without markup). All three read only
 * tag names, raw attribute strings, child lists and leaf values.
 */
module Serialization {
  import opened Wrappers
  import opened Strings
  import opened Dom

  /** The tags written `<tag attrs />`, compared ignoring ASCII case. */
  const SelfClosedTags: set<string> := {"img", "br", "hr", "area", "base", "input", "doctype", "link", "meta"}

  /**
   * `/^(img|br|hr|area|base|input|doctype|link|meta)$/i`: without the `u`
   * flag a case-insensitive match never folds a non-ASCII character onto
   * an ASCII one, so ASCII lower-casing decides it.
   */
  predicate SelfClosed(tag: string) {
    ToLowerAscii(tag) in SelfClosedTags
  }

  /** `' ' + rawAttrs` when there are attributes, nothing otherwise. */
  function AttrSuffix(raw: string): (r: string)
    ensures raw == "" <==> r == ""
  {
    if raw != "" then " " + raw else ""
  }

  /** `node.toString()` */
  function ToString(ns: seq<Node>, n: NodeId): string
    requires WellFormed(ns) && Ordered(ns) && n < |ns|
    decreases |ns| - n, 2
  {
    match ns[n]
    case Text(v) => v
    case Comment(v) => "<!--" + v + "-->"
    case Element(_, tag, raw, _, _, _, _, _) =>
      if tag == "" then InnerHTML(ns, n)
      else if SelfClosed(tag) then "<" + tag + AttrSuffix(raw) + " />"
      else "<" + tag + AttrSuffix(raw) + ">" + InnerHTML(ns, n) + "</" + tag + ">"
  }

  /** `element.innerHTML`: the children's `toString()` joined with nothing. */
  function InnerHTML(ns: seq<Node>, p: NodeId): string
    requires WellFormed(ns) && Ordered(ns) && p < |ns| && ns[p].Element?
    decreases |ns| - p, 1
  {
    ChildrenHTML(ns, p, |ns[p].childNodes|)
  }

  /** The renderings of the first `k` children of `p`, in order. */
  function ChildrenHTML(ns: seq<Node>, p: NodeId, k: nat): string
    requires WellFormed(ns) && Ordered(ns) && p < |ns| && ns[p].Element? && k <= |ns[p].childNodes|
    decreases |ns| - p, 0, k
  {
    if k == 0 then ""
    else ChildrenHTML(ns, p, k - 1) + ToString(ns, ns[p].childNodes[k - 1])
  }

  /** `node.rawText`: a leaf's value, or the children's `rawText` joined for an element. */
  function RawText(ns: seq<Node>, n: NodeId): string
    requires WellFormed(ns) && Ordered(ns) && n < |ns|
    decreases |ns| - n, 1
  {
    match ns[n]
    case Text(v) => v
    case Comment(v) => v
    case Element(_, _, _, cs, _, _, _, _) => ChildrenText(ns, n, |cs|)
  }

  /** The `rawText` of the first `k` children of `p`, in order. */
  function ChildrenText(ns: seq<Node>, p: NodeId, k: nat): string
    requires WellFormed(ns) && Ordered(ns) && p < |ns| && ns[p].Element? && k <= |ns[p].childNodes|
    decreases |ns| - p, 0, k
  {
    if k == 0 then ""
    else ChildrenText(ns, p, k - 1) + RawText(ns, ns[p].childNodes[k - 1])
  }

  // ---------------------------------------------------------------------
  // What the renderings depend on

  /**
   * From index `q` on, both arenas hold nodes that render alike: the same
   * kind, the same leaf value, and for elements the same tag, raw attribute
   * string and child list (parents and attribute caches may differ).
   */
  predicate SameRendering(a: seq<Node>, b: seq<Node>, q: nat) {
    |a| == |b| &&
    forall j | q <= j < |a| ::
      (a[j].Element? <==> b[j].Element?) &&
      (a[j].Element? ==> a[j].tagName == b[j].tagName && a[j].rawAttrs == b[j].rawAttrs &&
                         a[j].childNodes == b[j].childNodes) &&
      (!a[j].Element? ==> a[j] == b[j])
  }

  /** Nodes that render alike have the same `toString()` and `rawText`. */
  lemma {:induction false} RenderingFrame(a: seq<Node>, b: seq<Node>, n: NodeId)
    requires WellFormed(a) && Ordered(a) && WellFormed(b) && Ordered(b)
    requires n < |a| && SameRendering(a, b, n)
    ensures ToString(a, n) == ToString(b, n) && RawText(a, n) == RawText(b, n)
    decreases |a| - n, 1
  {
    if a[n].Element? {
      ChildrenFrame(a, b, n, |a[n].childNodes|);
    }
  }

  /** The children's renderings agree when the children render alike. */
  lemma {:induction false} ChildrenFrame(a: seq<Node>, b: seq<Node>, p: NodeId, k: nat)
    requires WellFormed(a) && Ordered(a) && WellFormed(b) && Ordered(b) && SameRendering(a, b, p + 1)
    requires p < |a| && a[p].Element? && b[p].Element? && k <= |a[p].childNodes| && k <= |b[p].childNodes|
    requires a[p].childNodes[..k] == b[p].childNodes[..k]
    ensures ChildrenHTML(a, p, k) == ChildrenHTML(b, p, k)
    ensures ChildrenText(a, p, k) == ChildrenText(b, p, k)
    decreases |a| - p, 0, k
  {
    if k > 0 {
      assert a[p].childNodes[..k - 1] == a[p].childNodes[..k][..k - 1];
      assert b[p].childNodes[..k - 1] == b[p].childNodes[..k][..k - 1];
      ChildrenFrame(a, b, p, k - 1);
      var c := a[p].childNodes[k - 1];
      assert c == a[p].childNodes[..k][k - 1] == b[p].childNodes[k - 1];
      RenderingFrame(a, b, c);
    }
  }

  lemma SameRenderingAfterChildren(ns: seq<Node>, p: NodeId, cs: seq<NodeId>, c: NodeId, parent: Option<NodeId>)
    requires p < |ns| && ns[p].Element? && c < |ns| && p < c
    ensures SameRendering(ns, WithParent(WithChildren(ns, p, cs), c, parent), p + 1)
  {
  }

  // ---------------------------------------------------------------------
  // Properties

  /** The synthetic root (empty tag) renders as its children alone. */
  lemma RootRendersChildren(ns: seq<Node>, n: NodeId)
    requires WellFormed(ns) && Ordered(ns) && n < |ns| && ns[n].Element? && ns[n].tagName == ""
    ensures ToString(ns, n) == InnerHTML(ns, n)
  {
  }

  /** A self-closed element renders none of its children: its rendering ignores its child list. */
  lemma SelfClosedIgnoresChildren(ns: seq<Node>, n: NodeId, cs: seq<NodeId>)
    requires WellFormed(ns) && Ordered(ns) && n < |ns| && ns[n].Element?
    requires ns[n].tagName != "" && SelfClosed(ns[n].tagName)
    requires forall i | 0 <= i < |cs| :: n < cs[i] < |ns|
    ensures WellFormed(WithChildren(ns, n, cs)) && Ordered(WithChildren(ns, n, cs))
    ensures ToString(WithChildren(ns, n, cs), n) == ToString(ns, n)
  {
    WellFormedWithChildren(ns, n, cs);
    OrderedWithChildren(ns, n, cs);
  }

  /** Self-closing is decided ignoring ASCII case: `BR` and `Img` are self-closed. */
  lemma SelfClosedIgnoresCase(tag: string)
    ensures SelfClosed(tag) == SelfClosed(ToLowerAscii(tag))
  {
    var l := ToLowerAscii(tag);
    assert ToLowerAscii(l) == l;
  }

  /** An element whose children are all text nodes has `innerHTML` equal to `rawText`. */
  lemma {:induction false} TextChildrenInnerIsRaw(ns: seq<Node>, p: NodeId, k: nat)
    requires WellFormed(ns) && Ordered(ns) && p < |ns| && ns[p].Element? && k <= |ns[p].childNodes|
    requires forall i | 0 <= i < |ns[p].childNodes| :: ns[ns[p].childNodes[i]].Text?
    ensures ChildrenHTML(ns, p, k) == ChildrenText(ns, p, k)
    ensures k == |ns[p].childNodes| ==> InnerHTML(ns, p) == RawText(ns, p)
  {
    if k > 0 {
      TextChildrenInnerIsRaw(ns, p, k - 1);
    }
  }

  /** `appendChild(c)` adds the child's rendering at the end of the parent's `innerHTML` and `rawText`. */
  lemma AppendRendering(ns: seq<Node>, p: NodeId, c: NodeId)
    requires WellFormed(ns) && Ordered(ns) && p < |ns| && ns[p].Element? && p < c < |ns|
    ensures var ns' := WithParent(WithChildren(ns, p, ns[p].childNodes + [c]), c, Some(p));
            WellFormed(ns') && Ordered(ns') &&
            InnerHTML(ns', p) == InnerHTML(ns, p) + ToString(ns, c) &&
            RawText(ns', p) == RawText(ns, p) + RawText(ns, c)
  {
    var cs := ns[p].childNodes + [c];
    var ns' := WithParent(WithChildren(ns, p, cs), c, Some(p));
    WellFormedWithChildren(ns, p, cs);
    OrderedWithChildren(ns, p, cs);
    WellFormedWithParent(WithChildren(ns, p, cs), c, Some(p));
    OrderedWithParent(WithChildren(ns, p, cs), c, Some(p));
    SameRenderingAfterChildren(ns, p, cs, c, Some(p));
    AppendedChildren(ns, ns', p, c);
  }

  /** A child list that grew by `c` at the end renders as before followed by `c`. */
  lemma AppendedChildren(a: seq<Node>, b: seq<Node>, p: NodeId, c: NodeId)
    requires WellFormed(a) && Ordered(a) && WellFormed(b) && Ordered(b) && SameRendering(a, b, p + 1)
    requires p < |a| && a[p].Element? && b[p].Element? && b[p].childNodes == a[p].childNodes + [c] && p < c < |a|
    ensures InnerHTML(b, p) == InnerHTML(a, p) + ToString(a, c)
    ensures RawText(b, p) == RawText(a, p) + RawText(a, c)
  {
    var k := |a[p].childNodes|;
    assert a[p].childNodes[..k] == b[p].childNodes[..k];
    ChildrenFrame(a, b, p, k);
    RenderingFrame(a, b, c);
    assert b[p].childNodes[k] == c;
    assert InnerHTML(b, p) == ChildrenHTML(b, p, k) + ToString(b, c);
    assert RawText(b, p) == ChildrenText(b, p, k) + RawText(b, c);
  }

  /** `prependChild(c)` puts the child's rendering in front of the parent's `innerHTML` and `rawText`. */
  lemma PrependRendering(ns: seq<Node>, p: NodeId, c: NodeId)
    requires WellFormed(ns) && Ordered(ns) && p < |ns| && ns[p].Element? && p < c < |ns|
    ensures var ns' := WithParent(WithChildren(ns, p, [c] + ns[p].childNodes), c, Some(p));
            WellFormed(ns') && Ordered(ns') &&
            InnerHTML(ns', p) == ToString(ns, c) + InnerHTML(ns, p) &&
            RawText(ns', p) == RawText(ns, c) + RawText(ns, p)
  {
    var cs := [c] + ns[p].childNodes;
    var ns' := WithParent(WithChildren(ns, p, cs), c, Some(p));
    WellFormedWithChildren(ns, p, cs);
    OrderedWithChildren(ns, p, cs);
    WellFormedWithParent(WithChildren(ns, p, cs), c, Some(p));
    OrderedWithParent(WithChildren(ns, p, cs), c, Some(p));
    SameRenderingAfterChildren(ns, p, cs, c, Some(p));
    RenderingFrame(ns, ns', c);
    PrependShift(ns, ns', p, c, |ns[p].childNodes|);
  }

  /** The first `k + 1` children after a prepend render as `c` followed by the first `k` before it. */
  lemma {:induction false} PrependShift(ns: seq<Node>, ns': seq<Node>, p: NodeId, c: NodeId, k: nat)
    requires WellFormed(ns) && Ordered(ns) && WellFormed(ns') && Ordered(ns') && SameRendering(ns, ns', p + 1)
    requires p < |ns| && ns[p].Element? && ns'[p].Element? && k <= |ns[p].childNodes|
    requires ns'[p].childNodes == [c] + ns[p].childNodes
    ensures p < c < |ns|
    ensures ChildrenHTML(ns', p, k + 1) == ToString(ns, c) + ChildrenHTML(ns, p, k)
    ensures ChildrenText(ns', p, k + 1) == RawText(ns, c) + ChildrenText(ns, p, k)
  {
    assert ns'[p].childNodes[0] == c;
    if k == 0 {
      RenderingFrame(ns, ns', c);
    } else {
      PrependShift(ns, ns', p, c, k - 1);
      var d := ns[p].childNodes[k - 1];
      assert ns'[p].childNodes[k] == d;
      RenderingFrame(ns, ns', d);
      ShiftStep(ChildrenHTML(ns', p, k + 1), ChildrenHTML(ns', p, k), ToString(ns', d),
                ToString(ns, c), ChildrenHTML(ns, p, k - 1), ChildrenHTML(ns, p, k));
      ShiftStep(ChildrenText(ns', p, k + 1), ChildrenText(ns', p, k), RawText(ns', d),
                RawText(ns, c), ChildrenText(ns, p, k - 1), ChildrenText(ns, p, k));
    }
  }

  lemma ShiftStep(whole: string, front: string, last: string, first: string, mid: string, rest: string)
    requires whole == front + last && front == first + mid && rest == mid + last
    ensures whole == first + rest
  {
  }
}
