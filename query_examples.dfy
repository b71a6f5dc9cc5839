/**
 * A search whose results come out of document order: with the selector
 * `a b`, the `b` inside the inner `a` is listed before the `b` that comes
 * first in the document.
 */
module QueryExamples {
  import opened Wrappers
  import opened Selectors
  import opened Dom
  import opened Query

  /** `<a><b></b><a><b></b></a></a>`, with no attributes. */
  function ForkedTree(): seq<Node> {
    [Element(None, "a", "", [1, 2], "", [], None, None),
     Element(Some(0), "b", "", [], "", [], None, None),
     Element(Some(0), "a", "", [3], "", [], None, None),
     Element(Some(2), "b", "", [], "", [], None, None)]
  }

  /**
   * The shape of that tree as the search sees it, for any arena and
   * selector of two segments: the root has children 1 and 2, element 2
   * has child 3, and the cursor moves as the tags `a`, `b`, `a`, `b` make
   * it move under `a b`.
   */
  predicate Forked(ns: seq<Node>, segs: seq<Segment>, codec: Codec) {
    WellFormed(ns) && Ordered(ns) && |ns| == 4 && |segs| == 2 &&
    ns[0].Element? && ns[1].Element? && ns[2].Element? && ns[3].Element? &&
    Kids(ns, 0) == [1, 2] && Kids(ns, 1) == [] && Kids(ns, 2) == [3] && Kids(ns, 3) == [] &&
    Offer(ns, segs, codec, 0, 0) == 1 &&
    Offer(ns, segs, codec, 1, 0) == 0 && Offer(ns, segs, codec, 1, 1) == 2 &&
    Offer(ns, segs, codec, 2, 0) == 1 && Offer(ns, segs, codec, 2, 1) == 1 &&
    Offer(ns, segs, codec, 3, 0) == 0 && Offer(ns, segs, codec, 3, 1) == 2
  }

  lemma ForkedTreeWellFormed()
    ensures WellFormed(ForkedTree()) && Ordered(ForkedTree())
  {
  }

  lemma ForkedTreeKids()
    ensures WellFormed(ForkedTree()) && Ordered(ForkedTree())
    ensures Kids(ForkedTree(), 0) == [1, 2] && Kids(ForkedTree(), 1) == []
    ensures Kids(ForkedTree(), 2) == [3] && Kids(ForkedTree(), 3) == []
  {
    ForkedTreeWellFormed();
    var ns := ForkedTree();
    assert ElementChildren(ns, [2]) == [2] + ElementChildren(ns, []);
    assert ElementChildren(ns, [1, 2]) == [1] + ElementChildren(ns, [2]);
    assert ElementChildren(ns, [3]) == [3] + ElementChildren(ns, []);
  }

  /** Where the cursor goes when each element of the tree is offered. */
  lemma ForkedTreeOffers(codec: Codec)
    ensures Offer(ForkedTree(), TagChain(), codec, 0, 0) == 1
    ensures Offer(ForkedTree(), TagChain(), codec, 1, 0) == 0 && Offer(ForkedTree(), TagChain(), codec, 1, 1) == 2
    ensures Offer(ForkedTree(), TagChain(), codec, 2, 0) == 1 && Offer(ForkedTree(), TagChain(), codec, 2, 1) == 1
    ensures Offer(ForkedTree(), TagChain(), codec, 3, 0) == 0 && Offer(ForkedTree(), TagChain(), codec, 3, 1) == 2
  {
    var ns := ForkedTree();
    var segs := TagChain();
    forall n | 0 <= n < 4
      ensures SegmentAccepts(segs[0], ViewOf(ns[n], codec)) <==> ns[n].tagName == "a"
      ensures SegmentAccepts(segs[1], ViewOf(ns[n], codec)) <==> ns[n].tagName == "b"
    {
      SegmentAcceptsIff(segs[0], ViewOf(ns[n], codec));
      SegmentAcceptsIff(segs[1], ViewOf(ns[n], codec));
    }
  }

  lemma ForkedTreeIsForked(codec: Codec)
    ensures Forked(ForkedTree(), TagChain(), codec)
  {
    ForkedTreeKids();
    ForkedTreeOffers(codec);
  }

  /** Document order in an arena of that shape. */
  lemma ForkedPreorder(ns: seq<Node>, segs: seq<Segment>, codec: Codec)
    requires Forked(ns, segs, codec)
    ensures Preorder(ns, 0) == [0, 1, 2, 3]
  {
    PreorderLeaf(ns, 1);
    PreorderLeaf(ns, 3);
    PreorderOfOne(ns, 2, 3);
    PreorderOfTwo(ns, 0, 1, 2);
  }

  lemma PreorderLeaf(ns: seq<Node>, n: NodeId)
    requires WellFormed(ns) && Ordered(ns) && n < |ns| && ns[n].Element? && Kids(ns, n) == []
    ensures Preorder(ns, n) == [n]
  {
    assert Preorder(ns, n) == [n] + PreorderOf(ns, n, []);
  }

  lemma PreorderOfOne(ns: seq<Node>, p: NodeId, c: NodeId)
    requires WellFormed(ns) && Ordered(ns) && p < c < |ns| && ns[c].Element?
    ensures PreorderOf(ns, p, [c]) == Preorder(ns, c)
  {
    assert PreorderOf(ns, p, [c]) == Preorder(ns, c) + PreorderOf(ns, p, [c][1..]);
  }

  lemma PreorderOfTwo(ns: seq<Node>, p: NodeId, c: NodeId, d: NodeId)
    requires WellFormed(ns) && Ordered(ns) && p < c < |ns| && p < d < |ns| && ns[c].Element? && ns[d].Element?
    ensures PreorderOf(ns, p, [c, d]) == Preorder(ns, c) + Preorder(ns, d)
  {
    PreorderOfOne(ns, p, d);
    assert PreorderOf(ns, p, [c, d]) == Preorder(ns, c) + PreorderOf(ns, p, [c, d][1..]);
  }

  /** The searches at the two `b` elements. */
  lemma ForkedLeaves(ns: seq<Node>, segs: seq<Segment>, codec: Codec)
    requires Forked(ns, segs, codec)
    ensures ExploreAll(ns, segs, codec, 1, 0) == [] && ExploreAll(ns, segs, codec, 1, 1) == [1]
    ensures ExploreAll(ns, segs, codec, 3, 0) == [] && ExploreAll(ns, segs, codec, 3, 1) == [3]
  {
    assert AllOf(ns, segs, codec, 1, [], 0) == [] && AllOf(ns, segs, codec, 1, [], 1) == [];
    assert AllOf(ns, segs, codec, 3, [], 0) == [] && AllOf(ns, segs, codec, 3, [], 1) == [];
  }

  /** The searches at the inner `a`. */
  lemma ForkedInner(ns: seq<Node>, segs: seq<Segment>, codec: Codec)
    requires Forked(ns, segs, codec)
    ensures ExploreAll(ns, segs, codec, 2, 0) == [3] && ExploreAll(ns, segs, codec, 2, 1) == [3]
  {
    ForkedLeaves(ns, segs, codec);
    AllOfOne(ns, segs, codec, 2, 3, 0);
    AllOfOne(ns, segs, codec, 2, 3, 1);
    AdvancedUnfinished(ns, segs, codec, 2, 0);
  }

  /** The search at the outer `a`: the inner `b` comes first. */
  lemma ForkedOuter(ns: seq<Node>, segs: seq<Segment>, codec: Codec)
    requires Forked(ns, segs, codec)
    ensures ExploreAll(ns, segs, codec, 0, 0) == [3, 1, 3]
  {
    ForkedChildren(ns, segs, codec);
    AdvancedUnfinished(ns, segs, codec, 0, 0);
  }

  /** The two children of the outer `a`, searched with each cursor. */
  lemma ForkedChildren(ns: seq<Node>, segs: seq<Segment>, codec: Codec)
    requires Forked(ns, segs, codec)
    ensures AllOf(ns, segs, codec, 0, [1, 2], 0) == [3] && AllOf(ns, segs, codec, 0, [1, 2], 1) == [1, 3]
  {
    ForkedLeaves(ns, segs, codec);
    ForkedInner(ns, segs, codec);
    AllOfTwo(ns, segs, codec, 0, 1, 2, 0);
    AllOfTwo(ns, segs, codec, 0, 1, 2, 1);
  }

  /** Searching two children is exploring one and then the other. */
  lemma AllOfTwo(ns: seq<Node>, segs: seq<Segment>, codec: Codec, p: NodeId, c: NodeId, d: NodeId, k: nat)
    requires WellFormed(ns) && Ordered(ns) && p < c < |ns| && p < d < |ns| && ns[c].Element? && ns[d].Element?
    ensures AllOf(ns, segs, codec, p, [c, d], k) == ExploreAll(ns, segs, codec, c, k) + ExploreAll(ns, segs, codec, d, k)
  {
    AllOfOne(ns, segs, codec, p, d, k);
    assert AllOf(ns, segs, codec, p, [c, d], k) == ExploreAll(ns, segs, codec, c, k) + AllOf(ns, segs, codec, p, [c, d][1..], k);
  }

  /** The de-duplicated form of that listing. */
  lemma ForkedDedup()
    ensures Dedup([3, 1, 3]) == [3, 1]
  {
    assert [3, 1, 3][..2] == [3, 1] && [3, 1][..1] == [3] && [3][..0] == [];
    assert Dedup([3]) == [3];
    assert Dedup([3, 1]) == Dedup([3]) + [1];
  }

  /** The document-ordered form of that listing. */
  lemma ForkedAmong()
    ensures Among([0, 1, 2, 3], [3, 1, 3]) == [1, 3]
  {
    var all := [3, 1, 3];
    assert Among([3], all) == [3] + Among([], all);
    assert Among([2, 3], all) == [] + Among([3], all);
    assert Among([1, 2, 3], all) == [1] + Among([2, 3], all);
    assert Among([0, 1, 2, 3], all) == [] + Among([1, 2, 3], all);
  }

  /**
   * The search behind `querySelectorAll` lists the inner `b` before the
   * outer one although the outer one comes first in the document, and the
   * string overload keeps that order; the corrected listing follows the
   * document.
   */
  lemma ForkedOutOfOrder(codec: Codec)
    ensures WellFormed(ForkedTree()) && Ordered(ForkedTree())
    ensures Preorder(ForkedTree(), 0) == [0, 1, 2, 3]
    ensures ExploreAll(ForkedTree(), TagChain(), codec, 0, 0) == [3, 1, 3]
    ensures QuerySelectorAll(ForkedTree(), [TagChain()], codec, 0) == [3, 1]
    ensures InDocumentOrder(ForkedTree(), TagChain(), codec, 0) == [1, 3]
  {
    ForkedTreeIsForked(codec);
    ForkedPreorder(ForkedTree(), TagChain(), codec);
    ForkedOuter(ForkedTree(), TagChain(), codec);
    DistinctMatchesIsStringOverload(ForkedTree(), TagChain(), codec, 0);
    ForkedDedup();
    ForkedAmong();
  }
}
