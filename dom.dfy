/**
 * The node tree. Nodes live in an arena owned by a `Document`; a node is
 * named by its index there, so that two parents can share a child and an
 * update through one reference is seen through every other, as with the
 * objects of the original. An element holds its parent, tag, raw
 * attribute string, child list, the id/class projection and the two
 * attribute caches; text and comment nodes hold their value.
 */
module Dom {
  import opened Wrappers
  import opened Strings
  import opened Attributes
  import opened Selectors

  type NodeId = nat

  datatype Node =
    | Element(parent: Option<NodeId>, tagName: string, rawAttrs: string, childNodes: seq<NodeId>,
              id: string, classNames: seq<string>, attrs: Option<Dict>, rawAttributes: Option<Dict>)
    | Text(value: string)
    | Comment(value: string)

  /** The entity decoder and encoder the element uses for attribute values. */
  datatype Codec = Codec(decode: string -> string, encode: string -> string)

  // ---------------------------------------------------------------------
  // Shape of the arena

  /**
   * The attribute caches of an element: the decoded one is only ever filled
   * together with the raw one (its getter fills the raw cache first), and
   * both are objects, so their keys are distinct.
   */
  predicate CachesOk(n: Node)
    requires n.Element?
  {
    (n.attrs.Some? ==> n.rawAttributes.Some? && UniqueKeys(n.attrs.value)) &&
    (n.rawAttributes.Some? ==> UniqueKeys(n.rawAttributes.value))
  }

  /** Every reference names a node of the arena, every parent is an element, and the caches agree. */
  predicate WellFormed(ns: seq<Node>) {
    // the trigger keeps a parent's own parent from being looked up in turn
    (forall n {:trigger ns[n].parent} | 0 <= n < |ns| && ns[n].Element? && ns[n].parent.Some? ::
       ns[n].parent.value < |ns| && ns[ns[n].parent.value].Element?) &&
    (forall n | 0 <= n < |ns| && ns[n].Element? ::
       CachesOk(ns[n]) && forall i | 0 <= i < |ns[n].childNodes| :: ns[n].childNodes[i] < |ns|)
  }

  /**
   * Every child was created after its parent. Trees built by the parser
   * have this shape, and it is what makes the recursive traversals finite.
   */
  predicate Ordered(ns: seq<Node>) {
    forall n | 0 <= n < |ns| && ns[n].Element? ::
      forall i | 0 <= i < |ns[n].childNodes| :: n < ns[n].childNodes[i]
  }

  /** Both arenas have the same nodes of each kind. */
  predicate SameKinds(a: seq<Node>, b: seq<Node>) {
    |a| == |b| &&
    forall n | 0 <= n < |a| :: (a[n].Element? <==> b[n].Element?) && (a[n].Text? <==> b[n].Text?)
  }

  /** A node with a new child list. */
  function WithChildren(ns: seq<Node>, p: NodeId, cs: seq<NodeId>): (r: seq<Node>)
    requires p < |ns| && ns[p].Element?
    ensures SameKinds(ns, r)
  {
    ns[p := ns[p].(childNodes := cs)]
  }

  /** An element's `parentNode` reassigned; text and comment nodes are left alone. */
  function WithParent(ns: seq<Node>, c: NodeId, parent: Option<NodeId>): (r: seq<Node>)
    requires c < |ns|
    ensures SameKinds(ns, r)
  {
    if ns[c].Element? then ns[c := ns[c].(parent := parent)] else ns
  }

  lemma WellFormedWithChildren(ns: seq<Node>, p: NodeId, cs: seq<NodeId>)
    requires WellFormed(ns) && p < |ns| && ns[p].Element?
    requires forall i | 0 <= i < |cs| :: cs[i] < |ns|
    ensures WellFormed(WithChildren(ns, p, cs))
  {
  }

  lemma WellFormedWithParent(ns: seq<Node>, c: NodeId, parent: Option<NodeId>)
    requires WellFormed(ns) && c < |ns|
    requires parent.Some? ==> parent.value < |ns| && ns[parent.value].Element?
    ensures WellFormed(WithParent(ns, c, parent))
  {
  }

  lemma OrderedWithChildren(ns: seq<Node>, p: NodeId, cs: seq<NodeId>)
    requires p < |ns| && ns[p].Element?
    ensures Ordered(ns) && (forall i | 0 <= i < |cs| :: p < cs[i]) ==> Ordered(WithChildren(ns, p, cs))
  {
  }

  lemma OrderedWithParent(ns: seq<Node>, c: NodeId, parent: Option<NodeId>)
    requires c < |ns|
    ensures Ordered(WithParent(ns, c, parent)) == Ordered(ns)
  {
    if ns[c].Element? {
      var r := WithParent(ns, c, parent);
      assert forall n | 0 <= n < |ns| :: r[n].Element? == ns[n].Element? && (r[n].Element? ==> r[n].childNodes == ns[n].childNodes);
    }
  }

  /** An element replaced by one with the same parent and children and sound caches. */
  lemma ReplaceElement(ns: seq<Node>, p: NodeId, m: Node)
    requires WellFormed(ns) && p < |ns| && ns[p].Element?
    requires m.Element? && m.parent == ns[p].parent && m.childNodes == ns[p].childNodes && CachesOk(m)
    ensures WellFormed(ns[p := m]) && SameKinds(ns, ns[p := m])
    ensures Ordered(ns) ==> Ordered(ns[p := m])
  {
  }

  // ---------------------------------------------------------------------
  // Child-list helpers

  /** `childNodes.filter(child => child !== node)`: every occurrence dropped, the rest in order. */
  function Without(cs: seq<NodeId>, x: NodeId): (r: seq<NodeId>)
    ensures x !in r
    ensures forall y :: y in r <==> y in cs && y != x
    ensures multiset(r) == multiset(cs)[x := 0]
  {
    if cs == [] then []
    else
      assert cs == [cs[0]] + cs[1..];
      if cs[0] == x then Without(cs[1..], x) else [cs[0]] + Without(cs[1..], x)
  }

  /** Filtering commutes with concatenation, so the kept children keep their order. */
  lemma {:induction false} WithoutAppend(a: seq<NodeId>, b: seq<NodeId>, x: NodeId)
    ensures Without(a + b, x) == Without(a, x) + Without(b, x)
  {
    if a != [] {
      assert (a + b)[1..] == a[1..] + b;
      WithoutAppend(a[1..], b, x);
    } else {
      assert a + b == b;
    }
  }

  /** Removing a node that is not among the children changes nothing. */
  lemma {:induction false} WithoutAbsent(cs: seq<NodeId>, x: NodeId)
    requires x !in cs
    ensures Without(cs, x) == cs
  {
    if cs != [] {
      WithoutAbsent(cs[1..], x);
    }
  }

  /** `childNodes.findIndex(node => node === x)`: the first occurrence, or -1. */
  function FindIndex(cs: seq<NodeId>, x: NodeId): (r: int)
    ensures r == -1 <==> x !in cs
    ensures r != -1 ==> 0 <= r < |cs| && cs[r] == x && x !in cs[..r]
  {
    if cs == [] then -1
    else if cs[0] == x then 0
    else
      var k := FindIndex(cs[1..], x);
      if k == -1 then -1 else (assert cs[..k + 1] == [cs[0]] + cs[1..][..k]; k + 1)
  }

  /** The `children` getter: the element children, in order. */
  function ElementChildren(ns: seq<Node>, cs: seq<NodeId>): (r: seq<NodeId>)
    requires forall i | 0 <= i < |cs| :: cs[i] < |ns|
    ensures forall i | 0 <= i < |r| :: r[i] < |ns| && ns[r[i]].Element? && r[i] in cs
    ensures forall c :: c in cs && ns[c].Element? ==> c in r
  {
    if cs == [] then []
    else if ns[cs[0]].Element? then [cs[0]] + ElementChildren(ns, cs[1..])
    else ElementChildren(ns, cs[1..])
  }

  lemma ElementChildrenFirst(ns: seq<Node>, cs: seq<NodeId>)
    requires cs != [] && forall i | 0 <= i < |cs| :: cs[i] < |ns|
    ensures ElementChildren(ns, cs) == (if ns[cs[0]].Element? then [cs[0]] else []) + ElementChildren(ns, cs[1..])
  {
  }

  /** The element children of two lists joined are those of each, joined. */
  lemma {:induction false} ElementChildrenAppend(ns: seq<Node>, a: seq<NodeId>, b: seq<NodeId>)
    requires forall i | 0 <= i < |a| :: a[i] < |ns|
    requires forall i | 0 <= i < |b| :: b[i] < |ns|
    ensures ElementChildren(ns, a + b) == ElementChildren(ns, a) + ElementChildren(ns, b)
  {
    if a == [] {
      assert a + b == b;
    } else {
      var ab := a + b;
      assert ab[0] == a[0] && ab[1..] == a[1..] + b;
      ElementChildrenAppend(ns, a[1..], b);
      ElementChildrenFirst(ns, ab);
      ElementChildrenFirst(ns, a);
      var h := if ns[a[0]].Element? then [a[0]] else [];
      var ta, tb := ElementChildren(ns, a[1..]), ElementChildren(ns, b);
      assert ElementChildren(ns, ab) == h + (ta + tb);
      JoinRegroup(h, ta, tb);
    }
  }

  lemma JoinRegroup(x: seq<NodeId>, y: seq<NodeId>, z: seq<NodeId>)
    ensures x + (y + z) == (x + y) + z
  {
  }

  /** The `firstChild` getter (`undefined` for an empty list). */
  function FirstChild(n: Node): (r: Option<NodeId>)
    requires n.Element?
    ensures r.None? <==> n.childNodes == []
    ensures r.Some? ==> r.value == n.childNodes[0]
  {
    if n.childNodes == [] then None else Some(n.childNodes[0])
  }

  /** The `lastChild` getter (`undefined` for an empty list). */
  function LastChild(n: Node): (r: Option<NodeId>)
    requires n.Element?
    ensures r.None? <==> n.childNodes == []
    ensures r.Some? ==> r.value == n.childNodes[|n.childNodes| - 1]
  {
    if n.childNodes == [] then None else Some(n.childNodes[|n.childNodes| - 1])
  }

  // ---------------------------------------------------------------------
  // Attribute getters (the caches filled on first use are read back unchanged,
  // so the getters are modelled as what they return)

  /** The `rawAttributes` getter: the cache, or the scan of the raw attribute string. */
  function RawAttributesOf(n: Node): (r: Dict)
    requires n.Element?
    ensures CachesOk(n) ==> UniqueKeys(r)
  {
    if n.rawAttributes.Some? then n.rawAttributes.value else ParseRawAttributes(n.rawAttrs)
  }

  /** The `attributes` getter: the cache, or every raw value decoded. */
  function AttributesOf(n: Node, codec: Codec): (r: Dict)
    requires n.Element?
    ensures n.attrs.None? ==> Keys(r) == Keys(RawAttributesOf(n))
    ensures CachesOk(n) ==> UniqueKeys(r)
  {
    if n.attrs.Some? then n.attrs.value else MapValues(RawAttributesOf(n), codec.decode)
  }

  /** `getAttribute(key)` */
  function GetAttribute(n: Node, key: string, codec: Codec): Option<string>
    requires n.Element?
  {
    Get(AttributesOf(n, codec), key)
  }

  /** What the selector checks see of an element. */
  function ViewOf(n: Node, codec: Codec): ElementView
    requires n.Element?
  {
    ElementView(n.tagName, n.id, n.classNames, AttributesOf(n, codec))
  }

  /** The `rawText` of a text or comment node is its value. */
  function LeafText(n: Node): string
    requires !n.Element?
  {
    n.value
  }

  /**
   * The element after `setAttribute(key, value)` (`value` None for
   * `undefined`, as `removeAttribute` passes): the decoded map and the raw
   * map (both filled by the getter first) get the value, encoded in the
   * raw one, or lose the key; `id` and `class` also update the projection;
   * and the raw attribute string is rebuilt from the decoded map.
   */
  function SetAttributeNode(n: Node, key: string, value: Option<string>, codec: Codec): (r: Node)
    requires n.Element? && CachesOk(n)
    ensures r.Element? && CachesOk(r) && r.attrs.Some? && r.rawAttributes.Some?
    ensures GetAttribute(r, key, codec) == value
    ensures forall k :: k != key ==> GetAttribute(r, k, codec) == GetAttribute(n, k, codec)
    ensures Get(RawAttributesOf(r), key) == (if value.Some? then Some(codec.encode(value.value)) else None)
    ensures forall k :: k != key ==> Get(RawAttributesOf(r), k) == Get(RawAttributesOf(n), k)
    ensures r.id == (if key == "id" then value.GetOr("") else n.id)
    ensures r.classNames == (if key == "class" then (if value.Some? then SplitWs(value.value) else []) else n.classNames)
    ensures r.rawAttrs == Serialize(AttributesOf(r, codec), codec.encode)
    ensures r.parent == n.parent && r.tagName == n.tagName && r.childNodes == n.childNodes
  {
    var attrs := AttributesOf(n, codec);
    var raw := RawAttributesOf(n);
    var attrs' := if value.None? then Delete(attrs, key) else Set(attrs, key, value.value);
    var raw' := if value.None? then Delete(raw, key) else Set(raw, key, codec.encode(value.value));
    n.(id := if key == "id" then value.GetOr("") else n.id,
       classNames := if key == "id" then n.classNames
                     else if key == "class" then (if value.Some? then SplitWs(value.value) else [])
                     else n.classNames,
       attrs := Some(attrs'),
       rawAttributes := Some(raw'),
       rawAttrs := Serialize(attrs', codec.encode))
  }

  /** The element after `setAttributes(attributes)`. */
  function SetAttributesNode(n: Node, attributes: Dict, codec: Codec): (r: Node)
    requires n.Element? && UniqueKeys(attributes)
    ensures r.Element? && CachesOk(r)
    ensures forall k :: GetAttribute(r, k, codec) == Get(attributes, k)
    ensures forall k :: Get(RawAttributesOf(r), k) == (if HasKey(attributes, k) then Some(codec.encode(Get(attributes, k).value)) else None)
    ensures r.rawAttrs == Serialize(attributes, codec.encode)
    ensures r.parent == n.parent && r.tagName == n.tagName && r.childNodes == n.childNodes
  {
    var id := Get(attributes, "id");
    var cls := Get(attributes, "class");
    n.(id := if id.Some? && id.value != "" then id.value else n.id,
       classNames := if id.Some? && id.value != "" then n.classNames
                     else if cls.Some? && cls.value != "" then SplitWs(cls.value)
                     else n.classNames,
       attrs := Some(attributes),
       rawAttributes := Some(MapValues(attributes, codec.encode)),
       rawAttrs := Serialize(attributes, codec.encode))
  }

  /** `setAttributes` takes the id from a non-empty `id` key, and only otherwise the class list from a non-empty `class` key. */
  lemma SetAttributesProjection(n: Node, attributes: Dict, codec: Codec)
    requires n.Element? && UniqueKeys(attributes)
    ensures var r := SetAttributesNode(n, attributes, codec);
            var id := GetAttribute(r, "id", codec);
            var cls := GetAttribute(r, "class", codec);
            (id.Some? && id.value != "" ==> r.id == id.value && r.classNames == n.classNames) &&
            (!(id.Some? && id.value != "") && cls.Some? && cls.value != "" ==> r.id == n.id && r.classNames == SplitWs(cls.value)) &&
            (!(id.Some? && id.value != "") && !(cls.Some? && cls.value != "") ==> r.id == n.id && r.classNames == n.classNames)
  {
  }

  // ---------------------------------------------------------------------
  // removeWhitespace and trimRight: what the in-place passes may change

  /** `TextNode.isWhitespace`: a text node holding only whitespace and `&nbsp;`. */
  predicate IsWhitespaceNode(n: Node) {
    n.Text? && IsWhitespaceText(n.value)
  }

  /** The children `removeWhitespace` keeps: all but the whitespace-only text nodes, in order. */
  function Kept(ns: seq<Node>, cs: seq<NodeId>): (r: seq<NodeId>)
    requires forall i | 0 <= i < |cs| :: cs[i] < |ns|
    ensures |r| <= |cs|
    ensures forall c :: c in r <==> c in cs && !IsWhitespaceNode(ns[c])
    ensures forall i | 0 <= i < |r| :: r[i] < |ns|
  {
    if cs == [] then []
    else
      var last := cs[|cs| - 1];
      assert cs == cs[..|cs| - 1] + [last];
      Kept(ns, cs[..|cs| - 1]) + (if IsWhitespaceNode(ns[last]) then [] else [last])
  }

  /**
   * How `removeWhitespace` leaves every node: a text node keeps its value or
   * has it trimmed, a comment is untouched, and an element changes at most
   * its child list.
   */
  predicate TrimmedFrom(a: seq<Node>, b: seq<Node>) {
    |a| == |b| &&
    forall j | 0 <= j < |a| ::
      match a[j]
      case Text(v) => b[j].Text? && (b[j].value == v || b[j].value == Trim(v))
      case Comment(_) => b[j] == a[j]
      case Element(_, _, _, _, _, _, _, _) => b[j].Element? && b[j] == a[j].(childNodes := b[j].childNodes)
  }

  lemma TrimmedFromTrans(a: seq<Node>, b: seq<Node>, c: seq<Node>)
    requires TrimmedFrom(a, b) && TrimmedFrom(b, c)
    ensures TrimmedFrom(a, c)
  {
    forall j | 0 <= j < |a| && a[j].Text? {
      TrimIdempotent(a[j].value);
    }
  }

  lemma TrimmedFromRefl(a: seq<Node>)
    ensures TrimmedFrom(a, a)
  {
  }

  lemma TrimmedFromKinds(a: seq<Node>, b: seq<Node>)
    requires TrimmedFrom(a, b)
    ensures SameKinds(a, b)
  {
  }

  /**
   * How `removeWhitespace` leaves every child list but the one of `skip`:
   * untouched, or cut to the children it keeps, in order.
   */
  predicate ListsKept(a: seq<Node>, b: seq<Node>, skip: int) {
    WellFormed(a) && |a| == |b| &&
    forall j | 0 <= j < |a| && j != skip && a[j].Element? && b[j].Element? ::
      b[j].childNodes == a[j].childNodes || b[j].childNodes == Kept(a, a[j].childNodes)
  }

  /** Keeping twice keeps the same children. */
  lemma {:induction false} KeptTwice(ns: seq<Node>, cs: seq<NodeId>)
    requires forall i | 0 <= i < |cs| :: cs[i] < |ns|
    ensures Kept(ns, Kept(ns, cs)) == Kept(ns, cs)
    decreases |cs|
  {
    if cs != [] {
      var init := cs[..|cs| - 1];
      var last := cs[|cs| - 1];
      var k := Kept(ns, init);
      KeptTwice(ns, init);
      if IsWhitespaceNode(ns[last]) {
        assert Kept(ns, cs) == k;
      } else {
        var r := k + [last];
        assert Kept(ns, cs) == r;
        assert r[..|r| - 1] == k && r[|r| - 1] == last;
        assert Kept(ns, r) == Kept(ns, k) + [last];
      }
    }
  }

  /** Trimming texts keeps which nodes are whitespace-only, so it keeps the same children. */
  lemma {:induction false} KeptTrimmed(a: seq<Node>, b: seq<Node>, cs: seq<NodeId>)
    requires TrimmedFrom(a, b)
    requires forall i | 0 <= i < |cs| :: cs[i] < |a|
    ensures Kept(b, cs) == Kept(a, cs)
    decreases |cs|
  {
    if cs != [] {
      var last := cs[|cs| - 1];
      KeptTrimmed(a, b, cs[..|cs| - 1]);
      if a[last].Text? {
        TrimKeepsWhitespaceText(a[last].value);
      }
    }
  }

  /** A text trimmed or a subtree cleaned after the lists kept so far keeps them kept. */
  lemma ListsKeptTrans(a: seq<Node>, b: seq<Node>, c: seq<Node>, skip: int)
    requires ListsKept(a, b, skip) && TrimmedFrom(a, b) && ListsKept(b, c, -1) && TrimmedFrom(b, c)
    ensures ListsKept(a, c, skip)
  {
    forall j | 0 <= j < |a| && j != skip && a[j].Element? && c[j].Element?
      ensures c[j].childNodes == a[j].childNodes || c[j].childNodes == Kept(a, a[j].childNodes)
    {
      var cs := a[j].childNodes;
      KeptTrimmed(a, b, cs);
      KeptTrimmed(a, b, Kept(a, cs));
      KeptTwice(a, cs);
    }
  }

  lemma ListsKeptRefl(a: seq<Node>, skip: int)
    requires WellFormed(a)
    ensures ListsKept(a, a, skip)
  {
  }

  /** A change to one text or comment keeps every list. */
  lemma ListsKeptLeaf(a: seq<Node>, b: seq<Node>, c: NodeId)
    requires WellFormed(a) && |a| == |b| && c < |a| && !a[c].Element?
    requires forall j | 0 <= j < |a| && j != c :: b[j] == a[j]
    ensures ListsKept(a, b, -1)
  {
  }

  /** A new list for `skip` leaves the others kept. */
  lemma ListsKeptWrite(a: seq<Node>, b: seq<Node>, skip: NodeId, xs: seq<NodeId>)
    requires ListsKept(a, b, skip) && skip < |b| && b[skip].Element?
    ensures ListsKept(a, WithChildren(b, skip, xs), skip)
  {
  }

  /** The list of `skip` cut to the children kept completes the lists kept. */
  lemma ListsKeptClose(a: seq<Node>, b: seq<Node>, skip: NodeId, o: nat)
    requires ListsKept(a, b, skip) && skip < |a| && a[skip].Element? && b[skip].Element?
    requires o <= |b[skip].childNodes| && b[skip].childNodes[..o] == Kept(a, a[skip].childNodes)
    ensures ListsKept(a, WithChildren(b, skip, b[skip].childNodes[..o]), -1)
  {
  }

  /** A text node's value trimmed. */
  function TrimTextAt(ns: seq<Node>, c: NodeId): (r: seq<Node>)
    requires c < |ns| && ns[c].Text?
    ensures |r| == |ns| && r[c] == Text(Trim(ns[c].value))
    ensures forall j | 0 <= j < |ns| && j != c :: r[j] == ns[j]
  {
    ns[c := Text(Trim(ns[c].value))]
  }

  /** `childNodes[o] = c` on element `p`. */
  function WriteChild(ns: seq<Node>, p: NodeId, o: nat, c: NodeId): (r: seq<Node>)
    requires p < |ns| && ns[p].Element? && o < |ns[p].childNodes|
  {
    WithChildren(ns, p, ns[p].childNodes[o := c])
  }

  /** The first `i` children that are texts with more than whitespace have been trimmed. */
  predicate TrimmedUpTo(ns0: seq<Node>, ns: seq<Node>, cs: seq<NodeId>, i: nat) {
    forall k | 0 <= k < i && k < |cs| && cs[k] < |ns0| && cs[k] < |ns| ::
      ns0[cs[k]].Text? && !IsWhitespaceText(ns0[cs[k]].value) ==> ns[cs[k]] == Text(Trim(ns0[cs[k]].value))
  }

  /**
   * The state of `removeWhitespace` on `p` after `i` of the original
   * children `cs`: `o` of them kept, written to the front of the list
   * whose tail is still the original, kept texts trimmed.
   */
  predicate CompactInv(ns0: seq<Node>, ns: seq<Node>, p: NodeId, cs: seq<NodeId>, i: nat, o: nat) {
    WellFormed(ns0) && Ordered(ns0) && p < |ns0| && ns0[p].Element? && cs == ns0[p].childNodes &&
    o <= i <= |cs| &&
    WellFormed(ns) && Ordered(ns) && TrimmedFrom(ns0, ns) &&
    (forall j | 0 <= j < p :: ns[j] == ns0[j]) &&
    o == |Kept(ns0, cs[..i])| &&
    ns[p].childNodes == Kept(ns0, cs[..i]) + cs[o..] &&
    TrimmedUpTo(ns0, ns, cs, i)
  }

  lemma CompactStart(ns0: seq<Node>, p: NodeId)
    requires WellFormed(ns0) && Ordered(ns0) && p < |ns0| && ns0[p].Element?
    ensures CompactInv(ns0, ns0, p, ns0[p].childNodes, 0, 0)
  {
    TrimmedFromRefl(ns0);
    assert ns0[p].childNodes[..0] == [];
  }

  /** The list keeps its length while it is compacted. */
  lemma CompactLength(ns0: seq<Node>, ns: seq<Node>, p: NodeId, cs: seq<NodeId>, i: nat, o: nat)
    requires CompactInv(ns0, ns, p, cs, i, o)
    ensures p < |ns| && ns[p].Element? && |ns[p].childNodes| == |cs|
  {
  }

  /** The entry read at `i` is still the original child there. */
  lemma CompactRead(ns0: seq<Node>, ns: seq<Node>, p: NodeId, cs: seq<NodeId>, i: nat, o: nat)
    requires CompactInv(ns0, ns, p, cs, i, o) && i < |cs|
    ensures |ns| == |ns0| && i < |ns[p].childNodes| == |cs| && ns[p].childNodes[i] == cs[i]
    ensures p < cs[i] < |ns| && (ns[cs[i]].Text? <==> ns0[cs[i]].Text?) && (ns[cs[i]].Element? <==> ns0[cs[i]].Element?)
    ensures ns[p].Element?
  {
    assert cs[i] in ns0[p].childNodes;
  }

  lemma CompactPrefix(ns0: seq<Node>, cs: seq<NodeId>, i: nat)
    requires i < |cs| && forall k | 0 <= k < |cs| :: cs[k] < |ns0|
    ensures Kept(ns0, cs[..i + 1]) == Kept(ns0, cs[..i]) + (if IsWhitespaceNode(ns0[cs[i]]) then [] else [cs[i]])
  {
    assert cs[..i + 1][..i] == cs[..i];
  }

  /** A whitespace-only text is skipped. */
  lemma CompactDrop(ns0: seq<Node>, ns: seq<Node>, p: NodeId, cs: seq<NodeId>, i: nat, o: nat)
    requires CompactInv(ns0, ns, p, cs, i, o) && i < |cs|
    requires ns[cs[i]].Text? && IsWhitespaceText(ns[cs[i]].value)
    ensures CompactInv(ns0, ns, p, cs, i + 1, o)
  {
    CompactRead(ns0, ns, p, cs, i, o);
    var c := cs[i];
    assert IsWhitespaceNode(ns0[c]) by {
      TrimKeepsWhitespaceText(ns0[c].value);
    }
    CompactPrefix(ns0, cs, i);
    assert Kept(ns0, cs[..i + 1]) == Kept(ns0, cs[..i]);
  }

  lemma TrimmedFromWithChildren(a: seq<Node>, b: seq<Node>, p: NodeId, cs: seq<NodeId>)
    requires TrimmedFrom(a, b) && p < |b| && b[p].Element?
    ensures TrimmedFrom(a, WithChildren(b, p, cs))
  {
  }

  /** Overwriting the first entry of the tail of a split list. */
  lemma WriteAtJoin(a: seq<NodeId>, cs: seq<NodeId>, o: nat, c: NodeId)
    requires |a| == o < |cs|
    ensures (a + cs[o..])[o := c] == a + [c] + cs[o + 1..]
  {
  }

  /** Every entry of the list after writing `c` at `o` is a child of `p` in the original tree. */
  lemma CompactEntries(ns0: seq<Node>, p: NodeId, cs: seq<NodeId>, i: nat, o: nat)
    requires WellFormed(ns0) && Ordered(ns0) && p < |ns0| && ns0[p].Element? && cs == ns0[p].childNodes
    requires o <= i < |cs| && o == |Kept(ns0, cs[..i])|
    ensures var x := Kept(ns0, cs[..i]) + [cs[i]] + cs[o + 1..];
            forall k | 0 <= k < |x| :: p < x[k] < |ns0|
  {
    var kept := Kept(ns0, cs[..i]);
    var x := kept + [cs[i]] + cs[o + 1..];
    forall k | 0 <= k < |x| ensures p < x[k] < |ns0| {
      var d := x[k];
      assert d in cs by {
        if k < o {
          assert d == kept[k];
          assert d in cs[..i];
        } else if k == o {
          assert d == cs[i];
        } else {
          assert d == cs[o + 1..][k - o - 1];
          assert d == cs[k];
        }
      }
    }
  }

  /** The list after writing `c` at `o`: kept prefix, `c`, original tail; the shape stays sound. */
  lemma CompactWriteShape(ns0: seq<Node>, ns: seq<Node>, ns': seq<Node>, p: NodeId, cs: seq<NodeId>, i: nat, o: nat)
    requires CompactInv(ns0, ns, p, cs, i, o) && i < |cs|
    requires WellFormed(ns') && Ordered(ns') && |ns'| == |ns|
    requires forall j | 0 <= j <= p :: ns'[j] == ns[j]
    ensures p < |ns'| && ns'[p].Element? && o < |ns'[p].childNodes|
    ensures ns'[p].childNodes[o := cs[i]] == Kept(ns0, cs[..i]) + [cs[i]] + cs[o + 1..]
    ensures WellFormed(WriteChild(ns', p, o, cs[i])) && Ordered(WriteChild(ns', p, o, cs[i]))
  {
    var kept := Kept(ns0, cs[..i]);
    assert ns'[p] == ns[p];
    var x := kept + [cs[i]] + cs[o + 1..];
    WriteAtJoin(kept, cs, o, cs[i]);
    CompactEntries(ns0, p, cs, i, o);
    WellFormedWithChildren(ns', p, x);
    OrderedWithChildren(ns', p, x);
  }

  /** Trimmed texts stay trimmed through a further update, which trims at most once more. */
  lemma CompactWriteValues(ns0: seq<Node>, ns: seq<Node>, ns': seq<Node>, cs: seq<NodeId>, i: nat)
    requires TrimmedFrom(ns0, ns) && TrimmedFrom(ns, ns') && i < |cs| && cs[i] < |ns0|
    requires TrimmedUpTo(ns0, ns, cs, i)
    requires ns'[cs[i]].Text? ==> ns'[cs[i]].value == Trim(ns0[cs[i]].value)
    ensures TrimmedUpTo(ns0, ns', cs, i + 1)
  {
    forall k | 0 <= k < i && cs[k] < |ns0| && ns0[cs[k]].Text?
      ensures !IsWhitespaceText(ns0[cs[k]].value) ==> ns'[cs[k]] == Text(Trim(ns0[cs[k]].value))
    {
      TrimIdempotent(ns0[cs[k]].value);
    }
  }

  /** The node values after writing the kept child: trimmed as before, the front of the arena untouched. */
  lemma CompactWriteState(ns0: seq<Node>, ns: seq<Node>, ns': seq<Node>, p: NodeId, cs: seq<NodeId>, i: nat, xs: seq<NodeId>)
    requires TrimmedFrom(ns0, ns) && TrimmedFrom(ns, ns') && i < |cs| && cs[i] < |ns0|
    requires TrimmedUpTo(ns0, ns, cs, i)
    requires ns'[cs[i]].Text? ==> ns'[cs[i]].value == Trim(ns0[cs[i]].value)
    requires p < |ns'| && ns'[p].Element?
    requires forall j | 0 <= j < p :: ns[j] == ns0[j]
    requires forall j | 0 <= j <= p :: ns'[j] == ns[j]
    ensures var r := WithChildren(ns', p, xs);
            TrimmedFrom(ns0, r) && TrimmedUpTo(ns0, r, cs, i + 1) && forall j | 0 <= j < p :: r[j] == ns0[j]
  {
    TrimmedFromTrans(ns0, ns, ns');
    TrimmedFromWithChildren(ns0, ns', p, xs);
    CompactWriteValues(ns0, ns, ns', cs, i);
    var r := WithChildren(ns', p, xs);
    assert forall d | 0 <= d < |r| && r[d].Text? :: r[d] == ns'[d];
  }

  /** Writing the kept child `c` at `o` after its own update. */
  lemma CompactWrite(ns0: seq<Node>, ns: seq<Node>, ns': seq<Node>, p: NodeId, cs: seq<NodeId>, i: nat, o: nat)
    requires CompactInv(ns0, ns, p, cs, i, o) && i < |cs|
    requires !IsWhitespaceNode(ns0[cs[i]])
    requires WellFormed(ns') && Ordered(ns') && TrimmedFrom(ns, ns')
    requires forall j | 0 <= j <= p :: ns'[j] == ns[j]
    requires ns'[cs[i]].Text? ==> ns'[cs[i]].value == Trim(ns0[cs[i]].value)
    ensures p < |ns'| && ns'[p].Element? && o < |ns'[p].childNodes|
    ensures CompactInv(ns0, WriteChild(ns', p, o, cs[i]), p, cs, i + 1, o + 1)
  {
    CompactWriteShape(ns0, ns, ns', p, cs, i, o);
    CompactWriteState(ns0, ns, ns', p, cs, i, ns'[p].childNodes[o := cs[i]]);
    CompactPrefix(ns0, cs, i);
  }

  /**
   * Writing the kept child at `o` once it was cleaned keeps the state of
   * the compaction, the lists kept, the children cleaned and the frame.
   */
  lemma KeptWritten(ns0: seq<Node>, ns: seq<Node>, ns': seq<Node>, p: NodeId, cs: seq<NodeId>, i: nat, o: nat)
    requires CompactInv(ns0, ns, p, cs, i, o) && i < |cs| && cs[i] < |ns0|
    requires !IsWhitespaceNode(ns0[cs[i]])
    requires WellFormed(ns') && Ordered(ns') && TrimmedFrom(ns, ns') && ListsKept(ns0, ns', p)
    requires forall j | 0 <= j <= p :: ns'[j] == ns[j]
    requires ns'[cs[i]].Text? ==> ns'[cs[i]].value == Trim(ns0[cs[i]].value)
    requires CleanedUpTo(ns', cs, i + 1) && SameOutside(ns0, ns', p)
    ensures p < |ns'| && ns'[p].Element? && o < |ns'[p].childNodes|
    ensures var r := WriteChild(ns', p, o, cs[i]);
            CompactInv(ns0, r, p, cs, i + 1, o + 1) && ListsKept(ns0, r, p) &&
            CleanedUpTo(r, cs, i + 1) && SameOutside(ns0, r, p)
  {
    CompactWrite(ns0, ns, ns', p, cs, i, o);
    var xs := ns'[p].childNodes[o := cs[i]];
    ListsKeptWrite(ns0, ns', p, xs);
    CleanedUpToWrite(ns', p, xs, cs, i + 1);
    assert InSubtree(ns0, p, p);
    SameOutsideAt(ns0, ns', WriteChild(ns', p, o, cs[i]), p, p);
  }

  /** A text with more than whitespace is trimmed, keeping the shape of the arena. */
  lemma CompactTrimText(ns0: seq<Node>, ns: seq<Node>, p: NodeId, cs: seq<NodeId>, i: nat, o: nat)
    requires CompactInv(ns0, ns, p, cs, i, o) && i < |cs|
    requires cs[i] < |ns| && ns[cs[i]].Text? && !IsWhitespaceText(ns[cs[i]].value)
    ensures var ns' := TrimTextAt(ns, cs[i]);
            WellFormed(ns') && Ordered(ns') && TrimmedFrom(ns, ns') &&
            (forall j | 0 <= j <= p :: ns'[j] == ns[j]) &&
            !IsWhitespaceNode(ns0[cs[i]]) && ns'[cs[i]].value == Trim(ns0[cs[i]].value)
  {
    CompactRead(ns0, ns, p, cs, i, o);
    TrimKeepsWhitespaceText(ns0[cs[i]].value);
    TrimIdempotent(ns0[cs[i]].value);
  }

  /** The list cut to the number kept. */
  lemma CompactFinish(ns0: seq<Node>, ns: seq<Node>, p: NodeId, cs: seq<NodeId>, i: nat, o: nat)
    requires CompactInv(ns0, ns, p, cs, i, o) && i == |cs|
    ensures p < |ns| && ns[p].Element? && o <= |ns[p].childNodes|
    ensures var r := WithChildren(ns, p, ns[p].childNodes[..o]);
            WellFormed(r) && Ordered(r) && TrimmedFrom(ns0, r) && SameKinds(ns0, r) &&
            (forall j | 0 <= j < p :: r[j] == ns0[j]) &&
            r[p].childNodes == Kept(ns0, cs) &&
            (forall c | c in r[p].childNodes :: !IsWhitespaceNode(r[c])) &&
            (forall c | c in r[p].childNodes && r[c].Text? :: r[c].value == Trim(ns0[c].value))
  {
    assert cs[..|cs|] == cs;
    var kept := Kept(ns0, cs);
    assert ns[p].childNodes[..o] == kept;
    var r := WithChildren(ns, p, kept);
    assert forall k | 0 <= k < |kept| :: kept[k] in cs;
    WellFormedWithChildren(ns, p, kept);
    OrderedWithChildren(ns, p, kept);
    TrimmedFromWithChildren(ns0, ns, p, kept);
    TrimmedFromKinds(ns0, r);
    KeptValues(ns0, ns, cs);
    assert forall c | c in kept :: r[c] == ns[c];
  }

  /** After the loop, no kept child is whitespace-only and every kept text is trimmed. */
  lemma KeptValues(ns0: seq<Node>, ns: seq<Node>, cs: seq<NodeId>)
    requires TrimmedFrom(ns0, ns) && TrimmedUpTo(ns0, ns, cs, |cs|)
    requires forall k | 0 <= k < |cs| :: cs[k] < |ns0|
    ensures forall c | c in Kept(ns0, cs) ::
              !IsWhitespaceNode(ns[c]) && (ns[c].Text? ==> ns[c].value == Trim(ns0[c].value))
  {
    forall c | c in Kept(ns0, cs)
      ensures !IsWhitespaceNode(ns[c]) && (ns[c].Text? ==> ns[c].value == Trim(ns0[c].value))
    {
      var k :| 0 <= k < |cs| && cs[k] == c;
      if ns0[c].Text? {
        TrimKeepsWhitespaceText(ns0[c].value);
      }
    }
  }

  // ---------------------------------------------------------------------
  // What removeWhitespace leaves below an element

  /** A child that `removeWhitespace` is done with: not whitespace-only, and trimmed if a text. */
  predicate TidyChild(ns: seq<Node>, c: NodeId)
    requires c < |ns|
  {
    !IsWhitespaceNode(ns[c]) && (ns[c].Text? ==> Trim(ns[c].value) == ns[c].value)
  }

  /**
   * The subtree of `n` as `removeWhitespace` leaves it: every element in it
   * has only tidy children.
   */
  predicate Cleaned(ns: seq<Node>, n: NodeId)
    requires WellFormed(ns) && Ordered(ns) && n < |ns|
    decreases |ns| - n
  {
    ns[n].Element? ==>
      forall i | 0 <= i < |ns[n].childNodes| ::
        TidyChild(ns, ns[n].childNodes[i]) && Cleaned(ns, ns[n].childNodes[i])
  }

  /** The children among the first `i` of `cs` are cleaned. */
  predicate CleanedUpTo(ns: seq<Node>, cs: seq<NodeId>, i: nat)
    requires WellFormed(ns) && Ordered(ns)
  {
    forall k | 0 <= k < i && k < |cs| && cs[k] < |ns| :: Cleaned(ns, cs[k])
  }

  /** A list that was kept holds only entries of the list before. */
  lemma ListedBefore(a: seq<Node>, b: seq<Node>, n: NodeId, skip: int)
    requires WellFormed(a) && ListsKept(a, b, skip) && n < |a| && n != skip && a[n].Element? && b[n].Element?
    ensures forall c | c in b[n].childNodes :: c in a[n].childNodes
  {
  }

  /**
   * A later pass that only trims texts and keeps lists, changing no list
   * of an element before `n` but `skip`, leaves the subtree of `n`
   * cleaned.
   */
  lemma {:induction false} CleanedStays(a: seq<Node>, b: seq<Node>, n: NodeId, skip: int)
    requires WellFormed(a) && Ordered(a) && WellFormed(b) && Ordered(b) && n < |a|
    requires TrimmedFrom(a, b) && ListsKept(a, b, skip) && skip < n
    requires Cleaned(a, n)
    ensures Cleaned(b, n)
    decreases |a| - n
  {
    if a[n].Element? {
      var cs := a[n].childNodes;
      assert forall i | 0 <= i < |cs| :: n < cs[i] < |a|;
      var ks := b[n].childNodes;
      ListedBefore(a, b, n, skip);
      forall i | 0 <= i < |ks|
        ensures TidyChild(b, ks[i]) && Cleaned(b, ks[i])
      {
        assert ks[i] in cs;
        var k :| 0 <= k < |cs| && cs[k] == ks[i];
        CleanedStays(a, b, cs[k], skip);
      }
    }
  }

  /** Text and comment nodes are cleaned. */
  lemma CleanedLeaf(ns: seq<Node>, n: NodeId)
    requires WellFormed(ns) && Ordered(ns) && n < |ns| && !ns[n].Element?
    ensures Cleaned(ns, n)
  {
  }

  /** The children cleaned so far stay cleaned through a later pass. */
  lemma CleanedUpToStays(a: seq<Node>, b: seq<Node>, cs: seq<NodeId>, i: nat, skip: int)
    requires WellFormed(a) && Ordered(a) && WellFormed(b) && Ordered(b)
    requires TrimmedFrom(a, b) && ListsKept(a, b, skip)
    requires forall k | 0 <= k < |cs| :: skip < cs[k]
    requires CleanedUpTo(a, cs, i)
    ensures CleanedUpTo(b, cs, i)
  {
    forall k | 0 <= k < i && k < |cs| && cs[k] < |b|
      ensures Cleaned(b, cs[k])
    {
      CleanedStays(a, b, cs[k], skip);
    }
  }

  /** One more child cleaned. */
  lemma CleanedUpToNext(ns: seq<Node>, cs: seq<NodeId>, i: nat)
    requires WellFormed(ns) && Ordered(ns) && CleanedUpTo(ns, cs, i)
    requires i < |cs| && cs[i] < |ns| && Cleaned(ns, cs[i])
    ensures CleanedUpTo(ns, cs, i + 1)
  {
  }

  /** Writing a child into the list of `p` keeps the children of `p` cleaned. */
  lemma CleanedUpToWrite(ns: seq<Node>, p: NodeId, xs: seq<NodeId>, cs: seq<NodeId>, i: nat)
    requires WellFormed(ns) && Ordered(ns) && p < |ns| && ns[p].Element?
    requires WellFormed(WithChildren(ns, p, xs)) && Ordered(WithChildren(ns, p, xs))
    requires forall k | 0 <= k < |cs| :: p < cs[k]
    requires CleanedUpTo(ns, cs, i)
    ensures CleanedUpTo(WithChildren(ns, p, xs), cs, i)
  {
    var r := WithChildren(ns, p, xs);
    TrimmedFromRefl(ns);
    TrimmedFromWithChildren(ns, ns, p, xs);
    ListsKeptRefl(ns, p);
    ListsKeptWrite(ns, ns, p, xs);
    CleanedUpToStays(ns, r, cs, i, p);
  }

  /**
   * The list of `p` set to tidy children drawn from `cs`, all of them
   * cleaned: the subtree of `p` is cleaned.
   */
  lemma CleanedCut(ns: seq<Node>, p: NodeId, xs: seq<NodeId>, cs: seq<NodeId>)
    requires WellFormed(ns) && Ordered(ns) && p < |ns| && ns[p].Element?
    requires WellFormed(WithChildren(ns, p, xs)) && Ordered(WithChildren(ns, p, xs))
    requires forall k | 0 <= k < |cs| :: p < cs[k] < |ns|
    requires CleanedUpTo(ns, cs, |cs|) && forall x | x in xs :: x in cs
    requires forall i | 0 <= i < |xs| :: xs[i] < |ns| && TidyChild(WithChildren(ns, p, xs), xs[i])
    ensures Cleaned(WithChildren(ns, p, xs), p)
  {
    var r := WithChildren(ns, p, xs);
    CleanedUpToWrite(ns, p, xs, cs, |cs|);
    forall i | 0 <= i < |xs|
      ensures Cleaned(r, xs[i])
    {
      assert xs[i] in cs;
    }
  }

  /** Kept children that are not whitespace-only and trimmed from their first value are tidy. */
  lemma KeptTidy(ns0: seq<Node>, ns: seq<Node>, xs: seq<NodeId>)
    requires forall i | 0 <= i < |xs| :: xs[i] < |ns| && xs[i] < |ns0|
    requires forall c | c in xs :: !IsWhitespaceNode(ns[c])
    requires forall c | c in xs && ns[c].Text? :: ns0[c].Text? && ns[c].value == Trim(ns0[c].value)
    ensures forall i | 0 <= i < |xs| :: TidyChild(ns, xs[i])
  {
    forall i | 0 <= i < |xs| && ns[xs[i]].Text?
      ensures Trim(ns[xs[i]].value) == ns[xs[i]].value
    {
      TrimIdempotent(ns0[xs[i]].value);
    }
  }

  /** Node `j` lies in the subtree of `n`: it is `n` or lies in the subtree of a child of `n`. */
  predicate InSubtree(ns: seq<Node>, n: NodeId, j: NodeId)
    requires WellFormed(ns) && Ordered(ns) && n < |ns|
    decreases |ns| - n
  {
    j == n ||
    (ns[n].Element? && exists i | 0 <= i < |ns[n].childNodes| :: InSubtree(ns, ns[n].childNodes[i], j))
  }

  /** Every node outside the subtree of `p` in `ns0` is as it was. */
  predicate SameOutside(ns0: seq<Node>, ns: seq<Node>, p: NodeId)
    requires WellFormed(ns0) && Ordered(ns0) && p < |ns0|
  {
    |ns| == |ns0| && forall j | 0 <= j < |ns0| && !InSubtree(ns0, p, j) :: ns[j] == ns0[j]
  }

  lemma SameOutsideRefl(ns: seq<Node>, p: NodeId)
    requires WellFormed(ns) && Ordered(ns) && p < |ns|
    ensures SameOutside(ns, ns, p)
  {
  }

  /** A change to one node `c` in the subtree of `p` stays inside it. */
  lemma SameOutsideAt(ns0: seq<Node>, ns: seq<Node>, ns': seq<Node>, p: NodeId, c: NodeId)
    requires WellFormed(ns0) && Ordered(ns0) && p < |ns0| && c < |ns0| && InSubtree(ns0, p, c)
    requires SameOutside(ns0, ns, p) && |ns'| == |ns| && forall j | 0 <= j < |ns| && j != c :: ns'[j] == ns[j]
    ensures SameOutside(ns0, ns', p)
  {
  }

  /**
   * Lists cut to the children kept hold nothing they did not hold before,
   * so a subtree below `skip` can only lose nodes.
   */
  lemma {:induction false} InSubtreeShrinks(a: seq<Node>, b: seq<Node>, n: NodeId, j: NodeId, skip: int)
    requires WellFormed(a) && Ordered(a) && WellFormed(b) && Ordered(b) && n < |a|
    requires TrimmedFrom(a, b) && ListsKept(a, b, skip) && skip < n
    requires InSubtree(b, n, j)
    ensures InSubtree(a, n, j)
    decreases |a| - n
  {
    if j != n {
      var i :| 0 <= i < |b[n].childNodes| && InSubtree(b, b[n].childNodes[i], j);
      var c := b[n].childNodes[i];
      ListedBefore(a, b, n, skip);
      var k :| 0 <= k < |a[n].childNodes| && a[n].childNodes[k] == c;
      InSubtreeShrinks(a, b, c, j, skip);
    }
  }

  /**
   * A change confined to the subtree of child `i` of `p`, made after the
   * lists below `p` were kept, stays inside the subtree of `p`.
   */
  lemma SameOutsideChild(ns0: seq<Node>, a: seq<Node>, b: seq<Node>, p: NodeId, i: nat)
    requires WellFormed(ns0) && Ordered(ns0) && WellFormed(a) && Ordered(a) && p < |ns0| && ns0[p].Element?
    requires TrimmedFrom(ns0, a) && ListsKept(ns0, a, p) && SameOutside(ns0, a, p)
    requires i < |ns0[p].childNodes| && SameOutside(a, b, ns0[p].childNodes[i])
    ensures SameOutside(ns0, b, p)
  {
    var c := ns0[p].childNodes[i];
    forall j | 0 <= j < |ns0| && !InSubtree(ns0, p, j)
      ensures b[j] == ns0[j]
    {
      if InSubtree(a, c, j) {
        InSubtreeShrinks(ns0, a, c, j, p);
        assert false;
      }
    }
  }

  /**
   * How `trimRight` leaves every node: a text or comment value is cut to a
   * prefix of itself, and an element's child list to a prefix of itself.
   */
  predicate CutFrom(a: seq<Node>, b: seq<Node>) {
    |a| == |b| &&
    forall j | 0 <= j < |a| ::
      match a[j]
      case Text(v) => b[j].Text? && StartsWith(v, b[j].value)
      case Comment(v) => b[j].Comment? && StartsWith(v, b[j].value)
      case Element(_, _, _, cs, _, _, _, _) =>
        b[j].Element? && b[j] == a[j].(childNodes := b[j].childNodes) &&
        |b[j].childNodes| <= |cs| && b[j].childNodes == cs[..|b[j].childNodes|]
  }

  lemma CutFromTrans(a: seq<Node>, b: seq<Node>, c: seq<Node>)
    requires CutFrom(a, b) && CutFrom(b, c)
    ensures CutFrom(a, c)
  {
    forall j | 0 <= j < |a|
      ensures match a[j]
              case Text(v) => c[j].Text? && StartsWith(v, c[j].value)
              case Comment(v) => c[j].Comment? && StartsWith(v, c[j].value)
              case Element(_, _, _, cs, _, _, _, _) =>
                c[j].Element? && c[j] == a[j].(childNodes := c[j].childNodes) &&
                |c[j].childNodes| <= |cs| && c[j].childNodes == cs[..|c[j].childNodes|]
    {
      if a[j].Element? {
        var x, y, z := a[j].childNodes, b[j].childNodes, c[j].childNodes;
        assert z == y[..|z|] && y == x[..|y|];
      }
    }
  }

  /**
   * The search finds nothing in any text or comment below `n`, so that
   * `trimRight` has nothing to cut.
   */
  predicate NoHit(ns: seq<Node>, n: NodeId, search: string -> Option<nat>)
    requires WellFormed(ns) && Ordered(ns) && n < |ns| && ns[n].Element?
    decreases |ns| - n
  {
    forall i | 0 <= i < |ns[n].childNodes| ::
      var c := ns[n].childNodes[i];
      if ns[c].Element? then NoHit(ns, c, search) else search(ns[c].value).None?
  }

  /** A text or comment value cut to its first `n` characters. */
  function CutLeafAt(ns: seq<Node>, c: NodeId, n: nat): (r: seq<Node>)
    requires c < |ns| && !ns[c].Element?
    ensures |r| == |ns| && !r[c].Element? && r[c].value == Strings.Prefix(ns[c].value, n) && (r[c].Text? <==> ns[c].Text?)
  {
    ns[c := if ns[c].Text? then Text(Strings.Prefix(ns[c].value, n)) else Comment(Strings.Prefix(ns[c].value, n))]
  }

  lemma CutFromRefl(a: seq<Node>)
    ensures CutFrom(a, a)
  {
    forall j | 0 <= j < |a| && a[j].Element?
      ensures a[j].childNodes[..|a[j].childNodes|] == a[j].childNodes
    {
    }
  }

  lemma CutFromKinds(a: seq<Node>, b: seq<Node>)
    requires CutFrom(a, b)
    ensures SameKinds(a, b)
  {
  }

  /**
   * The state of `trimRight` on `p` after `i` children: the list is a
   * prefix of the original `cs`; when it is shorter, it was cut right after
   * child `i - 1`, a text or comment; and when the search finds nothing
   * below `p`, nothing has changed.
   */
  predicate CutInv(ns0: seq<Node>, ns: seq<Node>, p: NodeId, cs: seq<NodeId>, i: nat, search: string -> Option<nat>) {
    WellFormed(ns0) && Ordered(ns0) && p < |ns0| && ns0[p].Element? && cs == ns0[p].childNodes &&
    WellFormed(ns) && Ordered(ns) && CutFrom(ns0, ns) &&
    (forall j | 0 <= j < p :: ns[j] == ns0[j]) &&
    i <= |ns[p].childNodes| &&
    (|ns[p].childNodes| < |cs| ==> 0 < i == |ns[p].childNodes| && !ns[cs[i - 1]].Element?) &&
    (NoHit(ns0, p, search) ==> ns == ns0)
  }

  lemma CutStart(ns0: seq<Node>, p: NodeId, search: string -> Option<nat>)
    requires WellFormed(ns0) && Ordered(ns0) && p < |ns0| && ns0[p].Element?
    ensures CutInv(ns0, ns0, p, ns0[p].childNodes, 0, search)
  {
    CutFromRefl(ns0);
  }

  /** The entry read at `i` is the original child there. */
  lemma CutRead(ns0: seq<Node>, ns: seq<Node>, p: NodeId, cs: seq<NodeId>, i: nat, search: string -> Option<nat>)
    requires CutInv(ns0, ns, p, cs, i, search) && i < |ns[p].childNodes|
    ensures |ns| == |ns0| && i < |cs| && ns[p].childNodes[i] == cs[i] && p < cs[i] < |ns|
    ensures ns[cs[i]].Element? <==> ns0[cs[i]].Element?
  {
    assert cs[i] in ns0[p].childNodes;
  }

  /** After an element child is trimmed recursively. */
  lemma CutElement(ns0: seq<Node>, ns: seq<Node>, ns': seq<Node>, p: NodeId, cs: seq<NodeId>, i: nat, search: string -> Option<nat>)
    requires CutInv(ns0, ns, p, cs, i, search) && i < |ns[p].childNodes|
    requires cs[i] < |ns| && ns[cs[i]].Element?
    requires WellFormed(ns') && Ordered(ns') && CutFrom(ns, ns')
    requires forall j | 0 <= j < cs[i] :: ns'[j] == ns[j]
    requires NoHit(ns, cs[i], search) ==> ns' == ns
    ensures CutInv(ns0, ns', p, cs, i + 1, search)
  {
    CutRead(ns0, ns, p, cs, i, search);
    CutFromTrans(ns0, ns, ns');
    assert ns'[p] == ns[p];
  }

  /** A text or comment the search does not match is left alone. */
  lemma CutMiss(ns0: seq<Node>, ns: seq<Node>, p: NodeId, cs: seq<NodeId>, i: nat, search: string -> Option<nat>)
    requires CutInv(ns0, ns, p, cs, i, search) && i < |ns[p].childNodes|
    requires cs[i] < |ns| && !ns[cs[i]].Element? && search(ns[cs[i]].value).None?
    ensures CutInv(ns0, ns, p, cs, i + 1, search)
  {
    CutRead(ns0, ns, p, cs, i, search);
  }

  /** A text or comment the search matches at `n` is cut there and ends the list. */
  lemma CutHit(ns0: seq<Node>, ns: seq<Node>, p: NodeId, cs: seq<NodeId>, i: nat, search: string -> Option<nat>, n: nat)
    requires CutInv(ns0, ns, p, cs, i, search) && i < |ns[p].childNodes|
    requires cs[i] < |ns| && !ns[cs[i]].Element? && search(ns[cs[i]].value) == Some(n)
    ensures var ns' := CutLeafAt(ns, cs[i], n);
            p < |ns'| && ns'[p].Element? && i + 1 <= |ns'[p].childNodes| &&
            CutInv(ns0, WithChildren(ns', p, ns'[p].childNodes[..i + 1]), p, cs, i + 1, search)
  {
    CutRead(ns0, ns, p, cs, i, search);
    var c := cs[i];
    var ns' := CutLeafAt(ns, c, n);
    CutLeafFrom(ns, c, n);
    CutFromTrans(ns0, ns, ns');
    var r := WithChildren(ns', p, ns'[p].childNodes[..i + 1]);
    CutListFrom(ns', p, i + 1);
    CutFromTrans(ns0, ns', r);
    assert r[p].childNodes == cs[..i + 1];
  }

  /** Cutting a text or comment keeps the arena's shape. */
  lemma CutLeafFrom(ns: seq<Node>, c: NodeId, n: nat)
    requires WellFormed(ns) && Ordered(ns) && c < |ns| && !ns[c].Element?
    ensures var r := CutLeafAt(ns, c, n);
            WellFormed(r) && Ordered(r) && CutFrom(ns, r) && forall j | 0 <= j < |ns| && j != c :: r[j] == ns[j]
  {
  }

  /** Cutting an element's child list to a prefix keeps the arena's shape. */
  lemma CutListFrom(ns: seq<Node>, p: NodeId, k: nat)
    requires WellFormed(ns) && Ordered(ns) && p < |ns| && ns[p].Element? && k <= |ns[p].childNodes|
    ensures var r := WithChildren(ns, p, ns[p].childNodes[..k]);
            WellFormed(r) && Ordered(r) && CutFrom(ns, r) && forall j | 0 <= j < |ns| && j != p :: r[j] == ns[j]
  {
    var kept := ns[p].childNodes[..k];
    assert forall m | 0 <= m < |kept| :: kept[m] == ns[p].childNodes[m];
    WellFormedWithChildren(ns, p, kept);
    OrderedWithChildren(ns, p, kept);
  }

  /** The loop's end: the method's promises. */
  lemma CutFinish(ns0: seq<Node>, ns: seq<Node>, p: NodeId, cs: seq<NodeId>, i: nat, search: string -> Option<nat>)
    requires CutInv(ns0, ns, p, cs, i, search) && i >= |ns[p].childNodes|
    ensures SameKinds(ns0, ns)
    ensures var k := |ns[p].childNodes|;
            k < |cs| ==> 0 < k && !ns[ns[p].childNodes[k - 1]].Element?
  {
    CutFromKinds(ns0, ns);
  }

  // ---------------------------------------------------------------------
  // The arena and the element operations that change it

  class Document {
    var nodes: seq<Node>

    predicate Valid()
      reads this
    {
      WellFormed(nodes)
    }

    constructor()
      ensures Valid() && nodes == []
    {
      nodes := [];
    }

    /**
     * `new HTMLElement(tagName, rawAttrs, parentNode)`: no children, empty
     * caches, and the id and class list read from the raw attribute string.
     */
    method NewElement(tagName: string, rawAttrs: string, parent: Option<NodeId>) returns (e: NodeId)
      requires Valid()
      requires parent.Some? ==> parent.value < |nodes| && nodes[parent.value].Element?
      modifies this
      ensures Valid() && e == old(|nodes|)
      ensures nodes == old(nodes) + [Element(parent, tagName, rawAttrs, [], IdOf(rawAttrs), ClassNamesOf(rawAttrs), None, None)]
    {
      e := |nodes|;
      nodes := nodes + [Element(parent, tagName, rawAttrs, [], IdOf(rawAttrs), ClassNamesOf(rawAttrs), None, None)];
    }

    /** `new TextNode(value)` */
    method NewText(value: string) returns (t: NodeId)
      requires Valid()
      modifies this
      ensures Valid() && t == old(|nodes|) && nodes == old(nodes) + [Text(value)]
    {
      t := |nodes|;
      nodes := nodes + [Text(value)];
    }

    /** `new CommentNode(value)` */
    method NewComment(value: string) returns (t: NodeId)
      requires Valid()
      modifies this
      ensures Valid() && t == old(|nodes|) && nodes == old(nodes) + [Comment(value)]
    {
      t := |nodes|;
      nodes := nodes + [Comment(value)];
    }

    /**
     * `p.appendChild(c)`: `c` goes last in the child list, which keeps every
     * other entry; only an element child has its parent set.
     */
    method AppendChild(p: NodeId, c: NodeId)
      requires Valid() && p < |nodes| && nodes[p].Element? && c < |nodes|
      modifies this
      ensures Valid() && SameKinds(old(nodes), nodes)
      ensures nodes == WithParent(WithChildren(old(nodes), p, old(nodes[p].childNodes) + [c]), c, Some(p))
      ensures nodes[p].childNodes == old(nodes[p].childNodes) + [c]
      ensures old(Ordered(nodes)) && p < c ==> Ordered(nodes)
    {
      var cs := nodes[p].childNodes + [c];
      WellFormedWithChildren(nodes, p, cs);
      OrderedWithChildren(nodes, p, cs);
      nodes := WithChildren(nodes, p, cs);
      WellFormedWithParent(nodes, c, Some(p));
      OrderedWithParent(nodes, c, Some(p));
      nodes := WithParent(nodes, c, Some(p));
    }

    /** `p.prependChild(c)`: `c` goes first, the other entries follow in order. */
    method PrependChild(p: NodeId, c: NodeId)
      requires Valid() && p < |nodes| && nodes[p].Element? && c < |nodes|
      modifies this
      ensures Valid() && SameKinds(old(nodes), nodes)
      ensures nodes == WithParent(WithChildren(old(nodes), p, [c] + old(nodes[p].childNodes)), c, Some(p))
      ensures nodes[p].childNodes == [c] + old(nodes[p].childNodes)
      ensures old(Ordered(nodes)) && p < c ==> Ordered(nodes)
    {
      var cs := [c] + nodes[p].childNodes;
      WellFormedWithChildren(nodes, p, cs);
      OrderedWithChildren(nodes, p, cs);
      nodes := WithChildren(nodes, p, cs);
      WellFormedWithParent(nodes, c, Some(p));
      OrderedWithParent(nodes, c, Some(p));
      nodes := WithParent(nodes, c, Some(p));
    }

    /**
     * `p.removeChild(c)`: every occurrence of `c` leaves the list, the rest
     * keep their order, and an element `c` loses its parent whether or not
     * it was a child of `p`.
     */
    method RemoveChild(p: NodeId, c: NodeId)
      requires Valid() && p < |nodes| && nodes[p].Element? && c < |nodes|
      modifies this
      ensures Valid() && SameKinds(old(nodes), nodes)
      ensures nodes == WithParent(WithChildren(old(nodes), p, Without(old(nodes[p].childNodes), c)), c, None)
      ensures c != p ==> nodes[p].childNodes == Without(old(nodes[p].childNodes), c)
      ensures old(Ordered(nodes)) ==> Ordered(nodes)
    {
      var cs := Without(nodes[p].childNodes, c);
      assert forall i | 0 <= i < |cs| :: cs[i] in nodes[p].childNodes by {
        forall i | 0 <= i < |cs| ensures cs[i] in nodes[p].childNodes {
          assert cs[i] in cs;
        }
      }
      WellFormedWithChildren(nodes, p, cs);
      OrderedWithChildren(nodes, p, cs);
      nodes := WithChildren(nodes, p, cs);
      WellFormedWithParent(nodes, c, None);
      OrderedWithParent(nodes, c, None);
      nodes := WithParent(nodes, c, None);
    }

    /**
     * `p.exchangeChild(o, n)`: the first occurrence of `o` is replaced by
     * `n` in place and an element `o` loses its parent; the new node's
     * parent is left as it was. Nothing changes when `o` is not a child.
     */
    method ExchangeChild(p: NodeId, o: NodeId, n: NodeId)
      requires Valid() && p < |nodes| && nodes[p].Element? && o < |nodes| && n < |nodes|
      modifies this
      ensures Valid() && SameKinds(old(nodes), nodes)
      ensures o !in old(nodes[p].childNodes) ==> nodes == old(nodes)
      ensures o in old(nodes[p].childNodes) ==>
                var k := FindIndex(old(nodes[p].childNodes), o);
                nodes == WithParent(WithChildren(old(nodes), p, old(nodes[p].childNodes)[k := n]), o, None)
      ensures old(Ordered(nodes)) && p < n ==> Ordered(nodes)
    {
      var k := FindIndex(nodes[p].childNodes, o);
      if k >= 0 {
        var cs := nodes[p].childNodes[k := n];
        WellFormedWithChildren(nodes, p, cs);
        OrderedWithChildren(nodes, p, cs);
        nodes := WithChildren(nodes, p, cs);
        WellFormedWithParent(nodes, o, None);
        OrderedWithParent(nodes, o, None);
        nodes := WithParent(nodes, o, None);
      }
    }

    /**
     * `n.remove()`: an element with a parent is removed from that parent's
     * list; anything else (a detached element, any text or comment node,
     * whose parent is never set) is left where it is.
     */
    method Remove(n: NodeId)
      requires Valid() && n < |nodes|
      modifies this
      ensures Valid() && SameKinds(old(nodes), nodes)
      ensures !(old(nodes[n]).Element? && old(nodes[n]).parent.Some?) ==> nodes == old(nodes)
      ensures old(nodes[n]).Element? && old(nodes[n]).parent.Some? ==>
                var q := old(nodes[n]).parent.value;
                nodes == WithParent(WithChildren(old(nodes), q, Without(old(nodes[q].childNodes), n)), n, None)
      ensures old(Ordered(nodes)) ==> Ordered(nodes)
    {
      if nodes[n].Element? && nodes[n].parent.Some? {
        RemoveChild(nodes[n].parent.value, n);
      }
    }
  
    /**
     * `p.removeWhitespace()`: the children are compacted in place with a
     * write index, dropping whitespace-only text nodes, trimming the other
     * text nodes and recursing into elements; the list is then cut to the
     * number kept.
     */
    method RemoveWhitespace(p: NodeId)
      requires Valid() && Ordered(nodes) && p < |nodes| && nodes[p].Element?
      modifies this
      ensures Valid() && Ordered(nodes) && SameKinds(old(nodes), nodes)
      ensures TrimmedFrom(old(nodes), nodes)
      ensures forall j | 0 <= j < p :: nodes[j] == old(nodes[j])
      ensures nodes[p].childNodes == Kept(old(nodes), old(nodes[p].childNodes))
      ensures ListsKept(old(nodes), nodes, -1)
      ensures forall c | c in nodes[p].childNodes :: !IsWhitespaceNode(nodes[c])
      ensures forall c | c in nodes[p].childNodes && nodes[c].Text? :: nodes[c].value == Trim(old(nodes[c].value))
      ensures Cleaned(nodes, p)
      ensures SameOutside(old(nodes), nodes, p)
      decreases |nodes| - p, 3
    {
      ghost var ns0 := nodes;
      ghost var cs := nodes[p].childNodes;
      CompactStart(ns0, p);
      CompactLength(ns0, nodes, p, cs, 0, 0);
      var o: nat := 0;
      var i: nat := 0;
      ListsKeptRefl(ns0, p);
      SameOutsideRefl(ns0, p);
      while i < |nodes[p].childNodes|
        invariant CompactInv(ns0, nodes, p, cs, i, o) && ListsKept(ns0, nodes, p)
        invariant i <= |cs| == |nodes[p].childNodes|
        invariant CleanedUpTo(nodes, cs, i)
        invariant SameOutside(ns0, nodes, p)
        decreases |cs| - i
      {
        o := CompactChild(p, ns0, cs, i, o);
        i := i + 1;
        CompactLength(ns0, nodes, p, cs, i, o);
      }
      CutToKept(p, ns0, cs, i, o);
    }

    /** The end of `removeWhitespace`: the list is cut to the `o` children kept. */
    method CutToKept(p: NodeId, ghost ns0: seq<Node>, ghost cs: seq<NodeId>, i: nat, o: nat)
      requires CompactInv(ns0, nodes, p, cs, i, o) && ListsKept(ns0, nodes, p) && i == |cs|
      requires CleanedUpTo(nodes, cs, i) && SameOutside(ns0, nodes, p)
      modifies this
      ensures Valid() && Ordered(nodes) && SameKinds(ns0, nodes) && TrimmedFrom(ns0, nodes)
      ensures forall j | 0 <= j < p :: nodes[j] == ns0[j]
      ensures nodes[p].childNodes == Kept(ns0, cs) && ListsKept(ns0, nodes, -1)
      ensures forall c | c in nodes[p].childNodes :: !IsWhitespaceNode(nodes[c])
      ensures forall c | c in nodes[p].childNodes && nodes[c].Text? :: nodes[c].value == Trim(ns0[c].value)
      ensures Cleaned(nodes, p) && SameOutside(ns0, nodes, p)
    {
      CompactFinish(ns0, nodes, p, cs, i, o);
      ListsKeptClose(ns0, nodes, p, o);
      ghost var before := nodes;
      var kept := nodes[p].childNodes[..o];
      nodes := WithChildren(nodes, p, kept);
      SameOutsideAt(ns0, before, nodes, p, p);
      KeptTidy(ns0, nodes, kept);
      CleanedCut(before, p, kept, cs);
    }

    /**
     * One pass of the `removeWhitespace` loop on child `i` of `p`, with
     * write index `o`: a whitespace-only text is skipped, any other text is
     * trimmed and an element cleaned recursively, and the child is then
     * written at `o`, which moves one on.
     */
    method CompactChild(p: NodeId, ghost ns0: seq<Node>, ghost cs: seq<NodeId>, i: nat, o: nat) returns (o': nat)
      requires CompactInv(ns0, nodes, p, cs, i, o) && ListsKept(ns0, nodes, p) && i < |cs|
      requires CleanedUpTo(nodes, cs, i) && SameOutside(ns0, nodes, p)
      modifies this
      ensures CompactInv(ns0, nodes, p, cs, i + 1, o') && ListsKept(ns0, nodes, p)
      ensures CleanedUpTo(nodes, cs, i + 1) && SameOutside(ns0, nodes, p)
      decreases |ns0| - p, 2
    {
      CompactRead(ns0, nodes, p, cs, i, o);
      var c := nodes[p].childNodes[i];
      if nodes[c].Text? && IsWhitespaceText(nodes[c].value) {
        CompactDrop(ns0, nodes, p, cs, i, o);
        CleanedLeaf(nodes, c);
        CleanedUpToNext(nodes, cs, i);
        o' := o;
      } else {
        KeepChild(p, ns0, cs, i, o, c);
        o' := o + 1;
      }
    }

    /** A child that stays: a text is trimmed, an element cleaned recursively, and it moves to slot `o`. */
    method KeepChild(p: NodeId, ghost ns0: seq<Node>, ghost cs: seq<NodeId>, i: nat, o: nat, c: NodeId)
      requires CompactInv(ns0, nodes, p, cs, i, o) && ListsKept(ns0, nodes, p) && i < |cs| && c == cs[i] && c < |nodes|
      requires !(nodes[c].Text? && IsWhitespaceText(nodes[c].value))
      requires CleanedUpTo(nodes, cs, i) && SameOutside(ns0, nodes, p)
      modifies this
      ensures CompactInv(ns0, nodes, p, cs, i + 1, o + 1) && ListsKept(ns0, nodes, p)
      ensures CleanedUpTo(nodes, cs, i + 1) && SameOutside(ns0, nodes, p)
      decreases |ns0| - p, 1
    {
      ghost var before := nodes;
      CleanChild(p, ns0, cs, i, o, c);
      KeptWritten(ns0, before, nodes, p, cs, i, o);
      nodes := WriteChild(nodes, p, o, c);
    }

    /**
     * The kept child `c` itself: a text is trimmed, an element cleaned
     * recursively, a comment left alone; nothing outside the subtree of
     * `c` changes.
     */
    method CleanChild(p: NodeId, ghost ns0: seq<Node>, ghost cs: seq<NodeId>, i: nat, o: nat, c: NodeId)
      requires CompactInv(ns0, nodes, p, cs, i, o) && ListsKept(ns0, nodes, p) && i < |cs| && c == cs[i] && c < |nodes|
      requires !(nodes[c].Text? && IsWhitespaceText(nodes[c].value))
      requires CleanedUpTo(nodes, cs, i) && SameOutside(ns0, nodes, p)
      modifies this
      ensures Valid() && Ordered(nodes) && TrimmedFrom(old(nodes), nodes) && ListsKept(ns0, nodes, p)
      ensures forall j | 0 <= j <= p :: nodes[j] == old(nodes[j])
      ensures !IsWhitespaceNode(ns0[c]) && (nodes[c].Text? ==> nodes[c].value == Trim(ns0[c].value))
      ensures CleanedUpTo(nodes, cs, i + 1) && SameOutside(ns0, nodes, p)
      decreases |ns0| - p, 0
    {
      CompactRead(ns0, nodes, p, cs, i, o);
      ghost var before := nodes;
      assert InSubtree(ns0, c, c);
      assert InSubtree(ns0, p, c);
      if nodes[c].Text? {
        CompactTrimText(ns0, nodes, p, cs, i, o);
        nodes := TrimTextAt(nodes, c);
        SameOutsideAt(ns0, before, nodes, p, c);
      } else if nodes[c].Element? {
        RemoveWhitespace(c);
        SameOutsideChild(ns0, before, nodes, p, i);
      } else {
        TrimmedFromRefl(nodes);
      }
      if !nodes[c].Element? {
        ListsKeptLeaf(before, nodes, c);
        CleanedLeaf(nodes, c);
      }
      CleanedUpToStays(before, nodes, cs, i, -1);
      CleanedUpToNext(nodes, cs, i);
      ListsKeptTrans(ns0, before, nodes, p);
    }

    /**
     * `p.trimRight(pattern)`, with `search` standing for `String.search` of
     * the pattern (None for -1): elements are trimmed recursively; the first
     * text or comment in which the pattern is found is cut before the match
     * and the child list is cut right after it, which ends the loop.
     */
    method TrimRight(p: NodeId, search: string -> Option<nat>)
      requires Valid() && Ordered(nodes) && p < |nodes| && nodes[p].Element?
      modifies this
      ensures Valid() && Ordered(nodes) && SameKinds(old(nodes), nodes)
      ensures CutFrom(old(nodes), nodes)
      ensures forall j | 0 <= j < p :: nodes[j] == old(nodes[j])
      ensures var k := |nodes[p].childNodes|;
              k < |old(nodes[p].childNodes)| ==> 0 < k && !nodes[nodes[p].childNodes[k - 1]].Element?
      ensures old(NoHit(nodes, p, search)) ==> nodes == old(nodes)
      decreases |nodes| - p, 1
    {
      ghost var ns0 := nodes;
      ghost var cs := nodes[p].childNodes;
      CutStart(ns0, p, search);
      var i: nat := 0;
      while i < |nodes[p].childNodes|
        invariant CutInv(ns0, nodes, p, cs, i, search)
        decreases |cs| - i
      {
        CutChild(p, search, ns0, cs, i);
        i := i + 1;
      }
      CutFinish(ns0, nodes, p, cs, i, search);
    }

    /**
     * One pass of the `trimRight` loop on child `i` of `p`: an element is
     * trimmed recursively; a text or comment in which the pattern is found
     * is cut before the match and becomes the last child.
     */
    method CutChild(p: NodeId, search: string -> Option<nat>, ghost ns0: seq<Node>, ghost cs: seq<NodeId>, i: nat)
      requires CutInv(ns0, nodes, p, cs, i, search) && i < |nodes[p].childNodes|
      modifies this
      ensures CutInv(ns0, nodes, p, cs, i + 1, search)
      decreases |ns0| - p, 0
    {
      CutRead(ns0, nodes, p, cs, i, search);
      var c := nodes[p].childNodes[i];
      if nodes[c].Element? {
        ghost var before := nodes;
        TrimRight(c, search);
        CutElement(ns0, before, nodes, p, cs, i, search);
      } else {
        var index := search(nodes[c].value);
        if index.Some? {
          CutHit(ns0, nodes, p, cs, i, search, index.value);
          nodes := CutLeafAt(nodes, c, index.value);
          nodes := WithChildren(nodes, p, nodes[p].childNodes[..i + 1]);
        } else {
          CutMiss(ns0, nodes, p, cs, i, search);
        }
      }
    }

    /** `p.setAttribute(key, value)`; `value` None stands for `undefined`. */
    method SetAttribute(p: NodeId, key: string, value: Option<string>, codec: Codec)
      requires Valid() && p < |nodes| && nodes[p].Element?
      modifies this
      ensures Valid() && SameKinds(old(nodes), nodes)
      ensures nodes == old(nodes)[p := SetAttributeNode(old(nodes[p]), key, value, codec)]
      ensures GetAttribute(nodes[p], key, codec) == value
      ensures old(Ordered(nodes)) ==> Ordered(nodes)
    {
      ReplaceElement(nodes, p, SetAttributeNode(nodes[p], key, value, codec));
      nodes := nodes[p := SetAttributeNode(nodes[p], key, value, codec)];
    }

    /** `p.removeAttribute(key)`, which is `setAttribute(key, undefined)`. */
    method RemoveAttribute(p: NodeId, key: string, codec: Codec)
      requires Valid() && p < |nodes| && nodes[p].Element?
      modifies this
      ensures Valid() && SameKinds(old(nodes), nodes)
      ensures nodes == old(nodes)[p := SetAttributeNode(old(nodes[p]), key, None, codec)]
      ensures !HasKey(AttributesOf(nodes[p], codec), key) && !HasKey(RawAttributesOf(nodes[p]), key)
      ensures old(Ordered(nodes)) ==> Ordered(nodes)
    {
      SetAttribute(p, key, None, codec);
    }

    /**
     * `p.setAttributes(attributes)`: a truthy `id` sets the id, otherwise a
     * truthy `class` sets the class list (never both); both maps are
     * emptied key by key and refilled from `attributes` in its key order,
     * encoded in the raw one; the raw attribute string is rebuilt.
     */
    method SetAttributes(p: NodeId, attributes: Dict, codec: Codec)
      requires Valid() && p < |nodes| && nodes[p].Element?
      requires UniqueKeys(attributes)
      modifies this
      ensures Valid() && SameKinds(old(nodes), nodes)
      ensures nodes == old(nodes)[p := SetAttributesNode(old(nodes[p]), attributes, codec)]
      ensures forall k :: GetAttribute(nodes[p], k, codec) == Get(attributes, k)
      ensures old(Ordered(nodes)) ==> Ordered(nodes)
    {
      var n := nodes[p];
      assert CachesOk(n);
      var id := n.id;
      var classNames := n.classNames;
      var idValue := Get(attributes, "id");
      var classValue := Get(attributes, "class");
      if idValue.Some? && idValue.value != "" {
        id := idValue.value;
      } else if classValue.Some? && classValue.value != "" {
        classNames := SplitWs(classValue.value);
      }
      var attrs := Refill(AttributesOf(n, codec), attributes, s => s);
      MapValuesIdentity(attributes);
      var raw := Refill(RawAttributesOf(n), attributes, codec.encode);
      var m := n.(id := id, classNames := classNames, attrs := Some(attrs),
                  rawAttributes := Some(raw), rawAttrs := Serialize(attributes, codec.encode));
      assert m == SetAttributesNode(n, attributes, codec);
      ReplaceElement(nodes, p, m);
      nodes := nodes[p := m];
    }
  }
}
