/**
 * The two element setters that parse a string: the `innerHTML` setter and
 * `set_content`. Both parse with no options, into the same arena.
 */
module Content {
  import opened Wrappers
  import opened Dom
  import opened Parser

  /** The element `c` names `p` as its parent, so `c.remove()` takes it out of `p`. */
  predicate OwnedBy(ns: seq<Node>, p: NodeId, c: NodeId) {
    c < |ns| && ns[c].Element? && ns[c].parent == Some(p)
  }

  /** The entries of `cs` that `p` owns: the ones `remove()` takes out of `p`'s list. */
  function Owned(ns: seq<Node>, p: NodeId, cs: seq<NodeId>): (r: set<NodeId>)
    ensures forall c :: c in r <==> c in cs && OwnedBy(ns, p, c)
  {
    set c | c in cs && OwnedBy(ns, p, c)
  }

  /** `cs` with every entry in `gone` dropped, the rest in order. */
  function Unremoved(cs: seq<NodeId>, gone: set<NodeId>): (r: seq<NodeId>)
    ensures forall c :: c in r <==> c in cs && c !in gone
    ensures |r| <= |cs|
  {
    if cs == [] then []
    else
      assert cs == [cs[0]] + cs[1..];
      (if cs[0] in gone then [] else [cs[0]]) + Unremoved(cs[1..], gone)
  }

  /** Removing one more node from a filtered list is filtering with one more node gone. */
  lemma {:induction false} WithoutUnremoved(cs: seq<NodeId>, gone: set<NodeId>, c: NodeId)
    ensures Without(Unremoved(cs, gone), c) == Unremoved(cs, gone + {c})
  {
    if cs != [] {
      WithoutUnremoved(cs[1..], gone, c);
      var head := if cs[0] in gone then [] else [cs[0]];
      WithoutAppend(head, Unremoved(cs[1..], gone), c);
    }
  }

  /** Nothing is dropped when nothing is gone. */
  lemma {:induction false} UnremovedNone(cs: seq<NodeId>)
    ensures Unremoved(cs, {}) == cs
  {
    if cs != [] {
      UnremovedNone(cs[1..]);
    }
  }

  /** The owned entries of one more element of the list. */
  lemma OwnedPrefix(ns0: seq<Node>, p: NodeId, cs: seq<NodeId>, i: nat)
    requires i < |cs|
    ensures Owned(ns0, p, cs[..i + 1]) == Owned(ns0, p, cs[..i]) + (if OwnedBy(ns0, p, cs[i]) then {cs[i]} else {})
  {
    assert cs[..i + 1] == cs[..i] + [cs[i]];
  }

  /**
   * Node `j` once every entry of `cs` has called `remove()` in turn: an
   * element among them has no parent left, an element's list has lost the
   * entries of `cs` that named it as their parent, and nothing else
   * changes. Each removal touches only the removed node and its own
   * parent, so the order of the removals does not matter.
   */
  function Detached(ns0: seq<Node>, j: NodeId, cs: seq<NodeId>): (r: Node)
    requires j < |ns0|
    ensures r.Element? == ns0[j].Element? && (!r.Element? ==> r == ns0[j])
    ensures r.Element? ==> r.parent == (if j in cs then None else ns0[j].parent)
    ensures r.Element? ==> forall c :: c in r.childNodes <==> c in ns0[j].childNodes && !(c in cs && OwnedBy(ns0, j, c))
    ensures r.Element? ==> r.(childNodes := ns0[j].childNodes, parent := ns0[j].parent) == ns0[j]
    ensures j !in cs && Owned(ns0, j, cs) == {} ==> r == ns0[j]
  {
    if ns0[j].Element? then
      UnremovedNone(ns0[j].childNodes);
      var n := ns0[j].(childNodes := Unremoved(ns0[j].childNodes, Owned(ns0, j, cs)));
      if j in cs then n.(parent := None) else n
    else ns0[j]
  }

  /** The whole arena after the first `i` entries of `cs` called `remove()`. */
  predicate DetachedUpTo(ns0: seq<Node>, ns: seq<Node>, cs: seq<NodeId>, i: nat) {
    i <= |cs| && |ns| == |ns0| && forall j | 0 <= j < |ns0| :: ns[j] == Detached(ns0, j, cs[..i])
  }

  lemma DetachedStart(ns0: seq<Node>, cs: seq<NodeId>)
    ensures DetachedUpTo(ns0, ns0, cs, 0)
  {
    assert cs[..0] == [];
    forall j | 0 <= j < |ns0|
      ensures ns0[j] == Detached(ns0, j, cs[..0])
    {
      assert Owned(ns0, j, []) == {};
    }
  }

  /** `Detached` depends on `cs` only through what `j` owns in it and whether `j` is in it. */
  lemma DetachedSameSet(ns0: seq<Node>, j: NodeId, a: seq<NodeId>, b: seq<NodeId>)
    requires j < |ns0| && Owned(ns0, j, a) == Owned(ns0, j, b) && (j in a <==> j in b)
    ensures Detached(ns0, j, a) == Detached(ns0, j, b)
  {
  }

  /** One more `remove()`, seen from node `j`. */
  lemma DetachedStepAt(ns0: seq<Node>, ns: seq<Node>, ns': seq<Node>, cs: seq<NodeId>, i: nat, j: NodeId)
    requires WellFormed(ns) && DetachedUpTo(ns0, ns, cs, i) && i < |cs| && cs[i] < |ns| && j < |ns|
    requires !(ns[cs[i]].Element? && ns[cs[i]].parent.Some?) ==> ns' == ns
    requires ns[cs[i]].Element? && ns[cs[i]].parent.Some? ==>
               var q := ns[cs[i]].parent.value;
               ns' == WithParent(WithChildren(ns, q, Without(ns[q].childNodes, cs[i])), cs[i], None)
    ensures ns'[j] == Detached(ns0, j, cs[..i + 1])
  {
    var c := cs[i];
    var done, next := cs[..i], cs[..i + 1];
    assert next == done + [c];
    assert j in next <==> j in done || j == c;
    OwnedPrefix(ns0, j, cs, i);
    var seen := Owned(ns0, j, done);
    assert ns[j] == Detached(ns0, j, done);
    assert ns[c] == Detached(ns0, c, done);
    if c in done {
      assert Owned(ns0, j, next) == seen;
      assert ns' == ns;
      DetachedSameSet(ns0, j, next, done);
    } else if ns[c].Element? && ns[c].parent.Some? {
      var q := ns[c].parent.value;
      assert ns0[c].Element? && ns0[c].parent == Some(q);
      if j == q {
        assert OwnedBy(ns0, j, c);
        WithoutUnremoved(ns0[j].childNodes, seen, c);
      } else {
        assert !OwnedBy(ns0, j, c);
        assert Owned(ns0, j, next) == seen;
        if j != c {
          assert ns'[j] == ns[j];
          DetachedSameSet(ns0, j, next, done);
        }
      }
    } else {
      assert ns' == ns;
      assert !OwnedBy(ns0, j, c);
      assert Owned(ns0, j, next) == seen;
      if j != c {
        DetachedSameSet(ns0, j, next, done);
      }
    }
  }

  lemma DetachedStep(ns0: seq<Node>, ns: seq<Node>, ns': seq<Node>, cs: seq<NodeId>, i: nat)
    requires WellFormed(ns) && DetachedUpTo(ns0, ns, cs, i) && i < |cs| && cs[i] < |ns| && |ns'| == |ns|
    requires !(ns[cs[i]].Element? && ns[cs[i]].parent.Some?) ==> ns' == ns
    requires ns[cs[i]].Element? && ns[cs[i]].parent.Some? ==>
               var q := ns[cs[i]].parent.value;
               ns' == WithParent(WithChildren(ns, q, Without(ns[q].childNodes, cs[i])), cs[i], None)
    ensures DetachedUpTo(ns0, ns', cs, i + 1)
  {
    forall j | 0 <= j < |ns0|
      ensures ns'[j] == Detached(ns0, j, cs[..i + 1])
    {
      DetachedStepAt(ns0, ns, ns', cs, i, j);
    }
  }

  /** Removals of nodes below the end of `ns0` read the same in any arena that extends it. */
  lemma DetachedExtended(ns0: seq<Node>, ns1: seq<Node>, j: NodeId, cs: seq<NodeId>)
    requires |ns0| <= |ns1| && ns1[..|ns0|] == ns0 && j < |ns0|
    requires forall k | 0 <= k < |cs| :: cs[k] < |ns0|
    ensures Detached(ns1, j, cs) == Detached(ns0, j, cs)
  {
    forall c | c in cs
      ensures OwnedBy(ns1, j, c) == OwnedBy(ns0, j, c)
    {
      assert ns1[c] == ns1[..|ns0|][c];
    }
    assert Owned(ns1, j, cs) == Owned(ns0, j, cs);
    assert ns1[j] == ns1[..|ns0|][j];
  }

  /**
   * `b` is `a` after `p.appendChild` of each of `kids` in turn: they follow
   * at the end of `p`'s list, the elements among them take `p` as their
   * parent, and nothing else changes.
   */
  predicate Adopted(a: seq<Node>, b: seq<Node>, p: NodeId, kids: seq<NodeId>)
    requires p < |a| && a[p].Element?
  {
    |b| == |a| && b[p] == a[p].(childNodes := a[p].childNodes + kids) &&
    forall j | 0 <= j < |a| && j != p :: b[j] == if a[j].Element? && j in kids then a[j].(parent := Some(p)) else a[j]
  }

  /**
   * What `parse(content)` gives, read in `ns`: `root` is the parse's root;
   * without markup its children are the whole string as one text node (none
   * for the empty string); `ids` lists the elements the scan created, new
   * nodes with the outline's tags; and when nothing is left open, the
   * outline's top-level elements are the root's children.
   */
  predicate Fragment(ns: seq<Node>, root: NodeId, ids: seq<NodeId>, content: string, scan: Scanner)
    requires ScannerSound(scan, content)
  {
    var o := ParseOutline(content, NoOptions, scan);
    root < |ns| && ns[root].Element? &&
    (scan(content, 0).None? ==>
       ns[root].childNodes == (if content == "" then [] else [root + 1]) &&
       (content != "" ==> root + 1 < |ns| && ns[root + 1] == Text(content))) &&
    |ids| == |o.tags| && ids[0] == root &&
    (forall k | 0 <= k < |ids| :: root <= ids[k] < |ns| && ns[ids[k]].Element? && ns[ids[k]].tagName == o.tags[k]) &&
    (|o.open| == 1 ==> forall k | 1 <= k < |ids| && o.parents[k] == 0 :: ids[k] in ns[root].childNodes)
  }

  /** `b` agrees with `a` in kind, in a leaf's value, and in an element's tag and child list. */
  predicate SameBelow(a: Node, b: Node) {
    a.Element? == b.Element? && (!a.Element? ==> b == a) &&
    (a.Element? ==> b.tagName == a.tagName && b.childNodes == a.childNodes)
  }

  /** A parse read through later changes that keep its nodes' kinds, tags, lists and leaves. */
  lemma FragmentKept(parsed: seq<Node>, ns: seq<Node>, root: NodeId, ids: seq<NodeId>, content: string, scan: Scanner)
    requires ScannerSound(scan, content) && Fragment(parsed, root, ids, content, scan) && |parsed| <= |ns|
    requires forall j | root <= j < |parsed| :: SameBelow(parsed[j], ns[j])
    ensures Fragment(ns, root, ids, content, scan)
  {
    assert SameBelow(parsed[root], ns[root]);
    if scan(content, 0).None? && content != "" {
      assert SameBelow(parsed[root + 1], ns[root + 1]);
    }
    forall k | 0 <= k < |ids|
      ensures ns[ids[k]].Element? && ns[ids[k]].tagName == ParseOutline(content, NoOptions, scan).tags[k]
    {
      assert SameBelow(parsed[ids[k]], ns[ids[k]]);
    }
  }

  /**
   * The `parse(content)` both setters start with, with no options: the
   * parse's nodes follow the old ones, which it leaves as they were, and
   * they form the `Fragment` of `content`.
   */
  method ParseFragment(doc: Document, content: string, scan: Scanner) returns (root: NodeId, ghost ids: seq<NodeId>)
    requires doc.Valid() && Ordered(doc.nodes) && ScannerSound(scan, content)
    modifies doc
    ensures doc.Valid() && Ordered(doc.nodes) && root == old(|doc.nodes|) < |doc.nodes|
    ensures doc.nodes[..root] == old(doc.nodes) && doc.nodes[root].Element?
    ensures forall j | 0 <= j < root :: doc.nodes[j] == old(doc.nodes[j])
    ensures Fragment(doc.nodes, root, ids, content, scan)
  {
    ghost var valid, unclosed;
    root, valid, unclosed, ids := Parse(doc, content, NoOptions, scan);
    assert forall j | 0 <= j < root :: doc.nodes[..root][j] == doc.nodes[j];
  }

  /**
   * The `innerHTML` setter: `content` is parsed, every child of `p` is told
   * to `remove()` itself, and the parsed root's children are appended to
   * `p` in order. A child removes itself from its own parent, so text and
   * comment children (which have none) stay in `p`'s list, as does an
   * element whose parent is another node; `root` is the parse's root.
   */
  method SetInnerHTML(doc: Document, p: NodeId, content: string, scan: Scanner) returns (root: NodeId, ghost ids: seq<NodeId>)
    requires doc.Valid() && Ordered(doc.nodes) && p < |doc.nodes| && doc.nodes[p].Element? && ScannerSound(scan, content)
    modifies doc
    ensures doc.Valid() && Ordered(doc.nodes) && root == old(|doc.nodes|) < |doc.nodes|
    ensures p < root && doc.nodes[p].Element? && doc.nodes[root].Element?
    ensures doc.nodes[p].childNodes ==
              Unremoved(old(doc.nodes[p].childNodes), Owned(old(doc.nodes), p, old(doc.nodes[p].childNodes))) +
              doc.nodes[root].childNodes
    ensures doc.nodes[p] == old(doc.nodes[p]).(childNodes := doc.nodes[p].childNodes)
    ensures forall j | 0 <= j < root && j != p :: doc.nodes[j] == Detached(old(doc.nodes), j, old(doc.nodes[p].childNodes))
    ensures forall c | c in doc.nodes[root].childNodes :: c < |doc.nodes| && (doc.nodes[c].Element? ==> doc.nodes[c].parent == Some(p))
    ensures Fragment(doc.nodes, root, ids, content, scan)
    ensures scan(content, 0).None? ==>
              doc.nodes[p].childNodes ==
                Unremoved(old(doc.nodes[p].childNodes), Owned(old(doc.nodes), p, old(doc.nodes[p].childNodes))) +
                (if content == "" then [] else [root + 1])
    ensures var o := ParseOutline(content, NoOptions, scan);
            |o.open| == 1 ==> forall k | 1 <= k < |ids| && o.parents[k] == 0 :: ids[k] in doc.nodes[p].childNodes
  {
    root, ids := ParseFragment(doc, content, scan);
    ghost var parsed := doc.nodes;
    assert parsed[p] == old(doc.nodes)[p] by {
      assert parsed[..root][p] == parsed[p];
    }
    assert forall c | c in parsed[p].childNodes :: OwnedBy(parsed, p, c) == OwnedBy(old(doc.nodes), p, c) by {
      forall c | c in parsed[p].childNodes
        ensures OwnedBy(parsed, p, c) == OwnedBy(old(doc.nodes), p, c)
      {
        assert c < root;
        assert parsed[..root][c] == parsed[c];
      }
    }
    assert Owned(parsed, p, parsed[p].childNodes) == Owned(old(doc.nodes), p, old(doc.nodes[p].childNodes));
    var kept := RemoveChildren(doc, p);
    ghost var mid := doc.nodes;
    AppendAll(doc, p, root);
    SetterFrame(old(doc.nodes), parsed, mid, mid, doc.nodes, p);
    FragmentKept(parsed, doc.nodes, root, ids, content, scan);
  }

  /**
   * A text or comment child has no parent to leave, so the removal loop of
   * the `innerHTML` setter keeps every one of them in the list.
   */
  lemma {:induction false} LeavesStay(ns: seq<Node>, p: NodeId, cs: seq<NodeId>)
    requires forall k | 0 <= k < |cs| :: cs[k] < |ns|
    ensures forall k | 0 <= k < |cs| && !ns[cs[k]].Element? :: cs[k] in Unremoved(cs, Owned(ns, p, cs))
  {
    forall k | 0 <= k < |cs| && !ns[cs[k]].Element?
      ensures cs[k] in Unremoved(cs, Owned(ns, p, cs))
    {
      assert cs[k] in cs && !OwnedBy(ns, p, cs[k]);
    }
  }

  /**
   * `<div>hello</div>` after `innerHTML = "<b>x</b>"`: the text child
   * `hello` is still first in the list, ahead of the parsed `b`.
   */
  lemma TextSurvivesInnerHTML(ns: seq<Node>, p: NodeId, t: NodeId, parsed: seq<NodeId>)
    requires p < |ns| && ns[p].Element? && ns[p].childNodes == [t] && t < |ns| && ns[t] == Text("hello")
    ensures Unremoved(ns[p].childNodes, Owned(ns, p, ns[p].childNodes)) + parsed == [t] + parsed
  {
    LeavesStay(ns, p, [t]);
    assert Unremoved([t], Owned(ns, p, [t])) == [t];
  }

  /**
   * The `innerHTML` setter as intended: the old children are detached as
   * before and the list is then cleared, so the element's children are
   * exactly the parsed ones.
   */
  method ReplaceInnerHTML(doc: Document, p: NodeId, content: string, scan: Scanner) returns (root: NodeId, ghost ids: seq<NodeId>)
    requires doc.Valid() && Ordered(doc.nodes) && p < |doc.nodes| && doc.nodes[p].Element? && ScannerSound(scan, content)
    modifies doc
    ensures doc.Valid() && Ordered(doc.nodes) && root == old(|doc.nodes|) < |doc.nodes|
    ensures p < root && doc.nodes[p].Element? && doc.nodes[root].Element?
    ensures doc.nodes[p].childNodes == doc.nodes[root].childNodes
    ensures doc.nodes[p] == old(doc.nodes[p]).(childNodes := doc.nodes[p].childNodes)
    ensures forall j | 0 <= j < root && j != p :: doc.nodes[j] == Detached(old(doc.nodes), j, old(doc.nodes[p].childNodes))
    ensures forall c | c in doc.nodes[root].childNodes :: c < |doc.nodes| && (doc.nodes[c].Element? ==> doc.nodes[c].parent == Some(p))
    ensures Fragment(doc.nodes, root, ids, content, scan)
    ensures scan(content, 0).None? ==> doc.nodes[p].childNodes == (if content == "" then [] else [root + 1])
    ensures var o := ParseOutline(content, NoOptions, scan);
            |o.open| == 1 ==> forall k | 1 <= k < |ids| && o.parents[k] == 0 :: ids[k] in doc.nodes[p].childNodes
  {
    root, ids := ParseFragment(doc, content, scan);
    ghost var parsed := doc.nodes;
    var kept := RemoveChildren(doc, p);
    ghost var removed := doc.nodes;
    SetContentNodes(doc, p, []);
    ghost var mid := doc.nodes;
    AppendAll(doc, p, root);
    SetterFrame(old(doc.nodes), parsed, removed, mid, doc.nodes, p);
    FragmentKept(parsed, doc.nodes, root, ids, content, scan);
  }

  /**
   * What both forms of the `innerHTML` setter leave: every node that was
   * there before as the removals left it, except for the list of `p`, and
   * every appended child with `p` as its parent.
   */
  lemma SetterFrame(ns0: seq<Node>, parsed: seq<Node>, ns1: seq<Node>, mid: seq<Node>, ns2: seq<Node>, p: NodeId)
    requires WellFormed(ns0) && Ordered(ns0) && p < |ns0| && ns0[p].Element?
    requires |ns0| < |parsed| && parsed[..|ns0|] == ns0
    requires |ns1| == |parsed| && forall j | 0 <= j < |ns1| :: ns1[j] == Detached(parsed, j, parsed[p].childNodes)
    requires |mid| == |ns1| && ns1[p].Element? && mid[p].Element? && mid[p] == ns1[p].(childNodes := mid[p].childNodes)
    requires forall j | 0 <= j < |mid| && j != p :: mid[j] == ns1[j]
    requires WellFormed(mid) && Ordered(mid) && mid[|ns0|].Element? && Adopted(mid, ns2, p, mid[|ns0|].childNodes)
    ensures ns2[p] == ns0[p].(childNodes := ns2[p].childNodes)
    ensures forall j | 0 <= j < |ns0| && j != p :: ns2[j] == Detached(ns0, j, ns0[p].childNodes)
    ensures forall c | c in ns2[|ns0|].childNodes :: c < |ns2| && (ns2[c].Element? ==> ns2[c].parent == Some(p))
    ensures forall j | |ns0| <= j < |parsed| :: SameBelow(parsed[j], ns2[j])
  {
    var root := |ns0|;
    var kids := mid[root].childNodes;
    var cs := ns0[p].childNodes;
    ParsedDetached(ns0, parsed, p);
    assert parsed[p] == parsed[..root][p];
    assert ns1[p] == Detached(ns0, p, cs) by {
      assert p !in cs;
    }
    assert forall k | 0 <= k < |kids| :: root < kids[k];
    forall j | 0 <= j < root && j != p
      ensures ns2[j] == Detached(ns0, j, cs)
    {
      assert j !in kids;
      assert ns2[j] == mid[j] == ns1[j];
    }
    assert ns2[root] == mid[root];
    forall c | c in ns2[root].childNodes
      ensures c < |ns2| && (ns2[c].Element? ==> ns2[c].parent == Some(p))
    {
      assert c in kids && c != p;
    }
    forall j | root <= j < |parsed|
      ensures SameBelow(parsed[j], ns2[j])
    {
      assert j !in cs;
      assert Owned(parsed, j, parsed[p].childNodes) == {} by {
        forall c | c in parsed[p].childNodes
          ensures !OwnedBy(parsed, j, c)
        {
          assert c in cs && c < root;
          assert parsed[c] == parsed[..root][c];
        }
      }
      assert ns1[j] == parsed[j];
    }
  }

  /**
   * The removals read the same before and after a parse that only appended
   * nodes to the arena.
   */
  lemma ParsedDetached(ns0: seq<Node>, parsed: seq<Node>, p: NodeId)
    requires WellFormed(ns0) && p < |ns0| && ns0[p].Element?
    requires |ns0| <= |parsed| && parsed[..|ns0|] == ns0
    ensures forall j | 0 <= j < |ns0| :: Detached(parsed, j, parsed[p].childNodes) == Detached(ns0, j, ns0[p].childNodes)
  {
    assert parsed[p] == parsed[..|ns0|][p];
    forall j | 0 <= j < |ns0|
      ensures Detached(parsed, j, parsed[p].childNodes) == Detached(ns0, j, ns0[p].childNodes)
    {
      DetachedExtended(ns0, parsed, j, ns0[p].childNodes);
    }
  }

  /** The loop `childNodes.forEach(node => node.remove())` over a snapshot of `p`'s list. */
  method RemoveChildren(doc: Document, p: NodeId) returns (kept: seq<NodeId>)
    requires doc.Valid() && Ordered(doc.nodes) && p < |doc.nodes| && doc.nodes[p].Element?
    modifies doc
    ensures doc.Valid() && Ordered(doc.nodes) && |doc.nodes| == old(|doc.nodes|) && doc.nodes[p].Element?
    ensures kept == doc.nodes[p].childNodes
    ensures kept == Unremoved(old(doc.nodes[p].childNodes), Owned(old(doc.nodes), p, old(doc.nodes[p].childNodes)))
    ensures SameKinds(old(doc.nodes), doc.nodes)
    ensures forall j | 0 <= j < |doc.nodes| :: doc.nodes[j] == Detached(old(doc.nodes), j, old(doc.nodes[p].childNodes))
  {
    ghost var ns0 := doc.nodes;
    var cs := doc.nodes[p].childNodes;
    DetachedStart(ns0, cs);
    for i := 0 to |cs|
      invariant doc.Valid() && Ordered(doc.nodes) && SameKinds(ns0, doc.nodes)
      invariant DetachedUpTo(ns0, doc.nodes, cs, i)
    {
      ghost var ns := doc.nodes;
      doc.Remove(cs[i]);
      DetachedStep(ns0, ns, doc.nodes, cs, i);
    }
    assert cs[..|cs|] == cs;
    assert p !in cs;
    kept := doc.nodes[p].childNodes;
  }

  /** The loop `doc.childNodes.forEach(node => this.appendChild(node))`. */
  method AppendAll(doc: Document, p: NodeId, root: NodeId)
    requires doc.Valid() && Ordered(doc.nodes) && p < root < |doc.nodes| && doc.nodes[p].Element? && doc.nodes[root].Element?
    modifies doc
    ensures doc.Valid() && Ordered(doc.nodes) && |doc.nodes| == old(|doc.nodes|)
    ensures doc.nodes[p].Element? && doc.nodes[root].Element? && doc.nodes[root].childNodes == old(doc.nodes[root].childNodes)
    ensures doc.nodes[p].childNodes == old(doc.nodes[p].childNodes) + old(doc.nodes[root].childNodes)
    ensures Adopted(old(doc.nodes), doc.nodes, p, old(doc.nodes[root].childNodes))
  {
    var kids := doc.nodes[root].childNodes;
    assert forall k | 0 <= k < |kids| :: root < kids[k] < |doc.nodes|;
    ghost var base := doc.nodes[p].childNodes;
    for i := 0 to |kids|
      invariant doc.Valid() && Ordered(doc.nodes) && |doc.nodes| == old(|doc.nodes|)
      invariant doc.nodes[p].Element? && doc.nodes[root].Element? && doc.nodes[root].childNodes == kids
      invariant doc.nodes[p].childNodes == base + kids[..i]
      invariant MovedUpTo(old(doc.nodes), doc.nodes, root, p, kids, i)
    {
      assert kids[..i + 1] == kids[..i] + [kids[i]];
      ghost var ns := doc.nodes;
      doc.AppendChild(p, kids[i]);
      MovedStep(old(doc.nodes), ns, doc.nodes, root, p, kids, i);
    }
    assert kids[..|kids|] == kids;
  }

  /**
   * `set_content` with a node or a list of nodes: the list becomes `p`'s
   * children as it is; no parent is updated.
   */
  method SetContentNodes(doc: Document, p: NodeId, content: seq<NodeId>)
    requires doc.Valid() && p < |doc.nodes| && doc.nodes[p].Element?
    requires forall k | 0 <= k < |content| :: content[k] < |doc.nodes|
    modifies doc
    ensures doc.Valid() && doc.nodes == WithChildren(old(doc.nodes), p, content)
    ensures old(Ordered(doc.nodes)) && (forall k | 0 <= k < |content| :: p < content[k]) ==> Ordered(doc.nodes)
  {
    WellFormedWithChildren(doc.nodes, p, content);
    OrderedWithChildren(doc.nodes, p, content);
    doc.nodes := WithChildren(doc.nodes, p, content);
  }

  /**
   * `set_content` with a string: the parsed root's children, or a single
   * new text node holding the whole string when the parse produced none,
   * become `p`'s children; their parents are left as the parse set them.
   */
  method SetContentText(doc: Document, p: NodeId, content: string, scan: Scanner) returns (root: NodeId, ghost ids: seq<NodeId>)
    requires doc.Valid() && Ordered(doc.nodes) && p < |doc.nodes| && doc.nodes[p].Element? && ScannerSound(scan, content)
    modifies doc
    ensures doc.Valid() && Ordered(doc.nodes) && root == old(|doc.nodes|) < |doc.nodes|
    ensures doc.nodes[root].Element? && doc.nodes[p].Element?
    ensures doc.nodes[root].childNodes != [] ==> doc.nodes[p].childNodes == doc.nodes[root].childNodes
    ensures doc.nodes[root].childNodes == [] ==>
              doc.nodes[p].childNodes == [|doc.nodes| - 1] && doc.nodes[|doc.nodes| - 1] == Text(content)
    ensures doc.nodes[p] == old(doc.nodes[p]).(childNodes := doc.nodes[p].childNodes)
    ensures forall j | 0 <= j < root && j != p :: doc.nodes[j] == old(doc.nodes[j])
    ensures Fragment(doc.nodes, root, ids, content, scan)
    ensures scan(content, 0).None? ==>
              |doc.nodes[p].childNodes| == 1 && doc.nodes[p].childNodes[0] < |doc.nodes| &&
              doc.nodes[doc.nodes[p].childNodes[0]] == Text(content)
    ensures var o := ParseOutline(content, NoOptions, scan);
            |o.open| == 1 ==> forall k | 1 <= k < |ids| && o.parents[k] == 0 :: ids[k] in doc.nodes[p].childNodes
  {
    root, ids := ParseFragment(doc, content, scan);
    ghost var parsed := doc.nodes;
    TakeParsed(doc, p, root, content);
    ContentTextParsed(parsed, doc.nodes, p, root, ids, content, scan);
  }

  /**
   * The second half of `set_content(content)`: the parsed root's children,
   * or one new text node holding `content` when there are none, become
   * `p`'s list, which is the only change besides the new node.
   */
  method TakeParsed(doc: Document, p: NodeId, root: NodeId, content: string)
    requires doc.Valid() && Ordered(doc.nodes) && p < root < |doc.nodes| && doc.nodes[p].Element? && doc.nodes[root].Element?
    modifies doc
    ensures doc.Valid() && Ordered(doc.nodes) && old(|doc.nodes|) <= |doc.nodes| && doc.nodes[p].Element?
    ensures forall j | 0 <= j < old(|doc.nodes|) && j != p :: doc.nodes[j] == old(doc.nodes[j])
    ensures doc.nodes[p] == old(doc.nodes[p]).(childNodes := doc.nodes[p].childNodes)
    ensures old(doc.nodes[root].childNodes) != [] ==> doc.nodes[p].childNodes == old(doc.nodes[root].childNodes)
    ensures old(doc.nodes[root].childNodes) == [] ==>
              doc.nodes[p].childNodes == [|doc.nodes| - 1] && doc.nodes[|doc.nodes| - 1] == Text(content)
  {
    var cs := doc.nodes[root].childNodes;
    assert forall k | 0 <= k < |cs| :: root < cs[k] < |doc.nodes|;
    if |cs| == 0 {
      var t := doc.NewText(content);
      cs := [t];
    }
    assert forall j | 0 <= j < old(|doc.nodes|) :: doc.nodes[j] == old(doc.nodes[j]);
    ghost var before := doc.nodes;
    SetContentNodes(doc, p, cs);
    assert forall j | 0 <= j < |before| && j != p :: doc.nodes[j] == before[j];
  }

  /**
   * What `set_content(content)` leaves of the parse: the `Fragment` still
   * reads the same, and `p` has gained its top-level elements, or the one
   * text node holding `content` when there is no markup.
   */
  lemma ContentTextParsed(parsed: seq<Node>, ns: seq<Node>, p: NodeId, root: NodeId, ids: seq<NodeId>,
                          content: string, scan: Scanner)
    requires ScannerSound(scan, content) && Fragment(parsed, root, ids, content, scan) && p < root
    requires |parsed| <= |ns| && ns[p].Element? && forall j | 0 <= j < |parsed| && j != p :: ns[j] == parsed[j]
    requires parsed[root].childNodes != [] ==> ns[p].childNodes == parsed[root].childNodes
    requires parsed[root].childNodes == [] ==> ns[p].childNodes == [|ns| - 1] && ns[|ns| - 1] == Text(content)
    ensures Fragment(ns, root, ids, content, scan)
    ensures scan(content, 0).None? ==>
              |ns[p].childNodes| == 1 && ns[p].childNodes[0] < |ns| && ns[ns[p].childNodes[0]] == Text(content)
    ensures var o := ParseOutline(content, NoOptions, scan);
            |o.open| == 1 ==> forall k | 1 <= k < |ids| && o.parents[k] == 0 :: ids[k] in ns[p].childNodes
  {
    assert forall j | root <= j < |parsed| :: SameBelow(parsed[j], ns[j]);
    FragmentKept(parsed, ns, root, ids, content, scan);
  }
}
