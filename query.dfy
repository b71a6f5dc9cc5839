/**
 * Selector queries over the tree: the recursive `explore` behind
 * `querySelectorAll` and `querySelector`. Each element is offered to the
 * matcher (the synthetic root, with an empty tag, is not); every child is
 * explored with a clone of the cursor, so the recursion is a function of
 * the node and the cursor value.
 */
module Query {
  import opened Wrappers
  import opened Selectors
  import opened Matching
  import opened Dom

  /** The `children` of an element: its element children, all created after it. */
  function Kids(ns: seq<Node>, n: NodeId): (r: seq<NodeId>)
    requires WellFormed(ns) && Ordered(ns) && n < |ns| && ns[n].Element?
    ensures forall i | 0 <= i < |r| :: n < r[i] < |ns| && ns[r[i]].Element?
  {
    ElementChildren(ns, ns[n].childNodes)
  }

  /**
   * The cursor after `explore` reaches element `n`: a named element is
   * offered to the matcher with `advance`, the synthetic root never is.
   */
  function Offer(ns: seq<Node>, segs: seq<Segment>, codec: Codec, n: NodeId, k: nat): (k': nat)
    requires n < |ns| && ns[n].Element?
    ensures k' == k || k' == k + 1
    ensures k' == k + 1 <==> ns[n].tagName != "" && k < |segs| && SegmentAccepts(segs[k], ViewOf(ns[n], codec))
  {
    if ns[n].tagName != "" then Step(segs, k, ViewOf(ns[n], codec)) else k
  }

  // ---------------------------------------------------------------------
  // explore(node, matcher, true)

  /**
   * `explore(n, matcher, true)` with the matcher at `k`. After an advance
   * the children are searched twice, once with the cursor rewound (so a
   * later element may match the same segment again) and, unless the chain
   * is complete, once with the cursor advanced.
   */
  function ExploreAll(ns: seq<Node>, segs: seq<Segment>, codec: Codec, n: NodeId, k: nat): seq<NodeId>
    requires WellFormed(ns) && Ordered(ns) && n < |ns| && ns[n].Element?
    decreases |ns| - n, 1
  {
    var k' := Offer(ns, segs, codec, n, k);
    var ch := Kids(ns, n);
    if k' == k + 1 then
      var below := AllOf(ns, segs, codec, n, ch, k);
      if k' == |segs| then [n] + below else below + AllOf(ns, segs, codec, n, ch, k')
    else AllOf(ns, segs, codec, n, ch, k)
  }

  /** `children.map(child => explore(child, matcher.clone(), true)).flat()` */
  function AllOf(ns: seq<Node>, segs: seq<Segment>, codec: Codec, p: NodeId, ch: seq<NodeId>, k: nat): seq<NodeId>
    requires WellFormed(ns) && Ordered(ns) && p < |ns|
    requires forall i | 0 <= i < |ch| :: p < ch[i] < |ns| && ns[ch[i]].Element?
    decreases |ns| - p, 0, |ch|
  {
    if ch == [] then []
    else ExploreAll(ns, segs, codec, ch[0], k) + AllOf(ns, segs, codec, p, ch[1..], k)
  }

  // ---------------------------------------------------------------------
  // explore(node, matcher, false)

  /**
   * `explore(n, matcher, false)` with the matcher at `k`: the element itself
   * when it completes the chain, otherwise the first hit among the children,
   * searched with the cursor as the advance left it.
   */
  function ExploreFirst(ns: seq<Node>, segs: seq<Segment>, codec: Codec, n: NodeId, k: nat): Option<NodeId>
    requires WellFormed(ns) && Ordered(ns) && n < |ns| && ns[n].Element?
    decreases |ns| - n, 1
  {
    var k' := Offer(ns, segs, codec, n, k);
    if k' == k + 1 && k' == |segs| then Some(n)
    else FirstOf(ns, segs, codec, n, Kids(ns, n), k')
  }

  /** The loop over the children that returns the first non-null result. */
  function FirstOf(ns: seq<Node>, segs: seq<Segment>, codec: Codec, p: NodeId, ch: seq<NodeId>, k: nat): Option<NodeId>
    requires WellFormed(ns) && Ordered(ns) && p < |ns|
    requires forall i | 0 <= i < |ch| :: p < ch[i] < |ns| && ns[ch[i]].Element?
    decreases |ns| - p, 0, |ch|
  {
    if ch == [] then None
    else match ExploreFirst(ns, segs, codec, ch[0], k)
      case Some(x) => Some(x)
      case None => FirstOf(ns, segs, codec, p, ch[1..], k)
  }

  // ---------------------------------------------------------------------
  // Reference definitions: document order and selection by one segment

  /** The element and its element descendants, in document (pre-)order. */
  function Preorder(ns: seq<Node>, n: NodeId): (r: seq<NodeId>)
    requires WellFormed(ns) && Ordered(ns) && n < |ns| && ns[n].Element?
    ensures forall i | 0 <= i < |r| :: n <= r[i] < |ns| && ns[r[i]].Element?
    decreases |ns| - n, 1
  {
    [n] + PreorderOf(ns, n, Kids(ns, n))
  }

  function PreorderOf(ns: seq<Node>, p: NodeId, ch: seq<NodeId>): (r: seq<NodeId>)
    requires WellFormed(ns) && Ordered(ns) && p < |ns|
    requires forall i | 0 <= i < |ch| :: p < ch[i] < |ns| && ns[ch[i]].Element?
    ensures forall i | 0 <= i < |r| :: p < r[i] < |ns| && ns[r[i]].Element?
    decreases |ns| - p, 0, |ch|
  {
    if ch == [] then []
    else
      var a := Preorder(ns, ch[0]);
      var b := PreorderOf(ns, p, ch[1..]);
      assert forall i | 0 <= i < |a + b| :: (a + b)[i] == if i < |a| then a[i] else b[i - |a|];
      a + b
  }

  /** A named element the segment accepts. */
  predicate Selected(ns: seq<Node>, s: Segment, codec: Codec, x: NodeId)
    requires x < |ns| && ns[x].Element?
  {
    ns[x].tagName != "" && SegmentAccepts(s, ViewOf(ns[x], codec))
  }

  /** The elements of `xs` that the segment selects, in order. */
  function Filter(ns: seq<Node>, s: Segment, codec: Codec, xs: seq<NodeId>): (r: seq<NodeId>)
    requires forall i | 0 <= i < |xs| :: xs[i] < |ns| && ns[xs[i]].Element?
  {
    if xs == [] then []
    else (if Selected(ns, s, codec, xs[0]) then [xs[0]] else []) + Filter(ns, s, codec, xs[1..])
  }

  /** Filtering keeps a list without repetitions free of them. */
  lemma {:induction false} FilterDistinct(ns: seq<Node>, s: Segment, codec: Codec, xs: seq<NodeId>)
    requires forall i | 0 <= i < |xs| :: xs[i] < |ns| && ns[xs[i]].Element?
    requires Distinct(xs)
    ensures Distinct(Filter(ns, s, codec, xs))
    ensures forall x | x in Filter(ns, s, codec, xs) :: x in xs
  {
    if xs != [] {
      var rest := xs[1..];
      assert Distinct(rest);
      FilterDistinct(ns, s, codec, rest);
      assert xs[0] !in rest;
    }
  }

  lemma {:induction false} FilterAppend(ns: seq<Node>, s: Segment, codec: Codec, a: seq<NodeId>, b: seq<NodeId>)
    requires forall i | 0 <= i < |a| :: a[i] < |ns| && ns[a[i]].Element?
    requires forall i | 0 <= i < |b| :: b[i] < |ns| && ns[b[i]].Element?
    ensures Filter(ns, s, codec, a + b) == Filter(ns, s, codec, a) + Filter(ns, s, codec, b)
  {
    if a == [] {
      assert a + b == b;
    } else {
      assert (a + b)[0] == a[0] && (a + b)[1..] == a[1..] + b;
      FilterAppend(ns, s, codec, a[1..], b);
    }
  }

  /** The first element of a list, if any. */
  function HeadOf(xs: seq<NodeId>): (r: Option<NodeId>)
    ensures r.None? <==> xs == []
    ensures r.Some? ==> r.value == xs[0]
  {
    if xs == [] then None else Some(xs[0])
  }

  lemma HeadOfAppend(a: seq<NodeId>, b: seq<NodeId>)
    ensures HeadOf(a + b) == if a != [] then HeadOf(a) else HeadOf(b)
  {
    if a == [] {
      assert a + b == b;
    }
  }

  // ---------------------------------------------------------------------
  // A selector of one segment

  /**
   * With a single segment, `querySelectorAll` lists exactly the named
   * elements of the subtree that the segment accepts, in document order.
   */
  lemma {:induction false} SingleSegmentAll(ns: seq<Node>, s: Segment, codec: Codec, n: NodeId)
    requires WellFormed(ns) && Ordered(ns) && n < |ns| && ns[n].Element?
    ensures ExploreAll(ns, [s], codec, n, 0) == Filter(ns, s, codec, Preorder(ns, n))
    decreases |ns| - n, 1
  {
    SingleSegmentAllOf(ns, s, codec, n, Kids(ns, n));
    ExploreOneSegment(ns, s, codec, n);
    FilterPreorder(ns, s, codec, n);
  }

  /** With one segment, `explore` lists the element if selected, then what its children list. */
  lemma ExploreOneSegment(ns: seq<Node>, s: Segment, codec: Codec, n: NodeId)
    requires WellFormed(ns) && Ordered(ns) && n < |ns| && ns[n].Element?
    ensures ExploreAll(ns, [s], codec, n, 0) ==
            (if Selected(ns, s, codec, n) then [n] else []) + AllOf(ns, [s], codec, n, Kids(ns, n), 0)
  {
    assert Offer(ns, [s], codec, n, 0) == 1 <==> Selected(ns, s, codec, n);
  }

  lemma FilterPreorder(ns: seq<Node>, s: Segment, codec: Codec, n: NodeId)
    requires WellFormed(ns) && Ordered(ns) && n < |ns| && ns[n].Element?
    ensures Filter(ns, s, codec, Preorder(ns, n)) ==
            (if Selected(ns, s, codec, n) then [n] else []) + Filter(ns, s, codec, PreorderOf(ns, n, Kids(ns, n)))
  {
    var below := PreorderOf(ns, n, Kids(ns, n));
    FilterAppend(ns, s, codec, [n], below);
    assert Filter(ns, s, codec, [n]) == if Selected(ns, s, codec, n) then [n] else [];
  }

  lemma {:induction false} SingleSegmentAllOf(ns: seq<Node>, s: Segment, codec: Codec, p: NodeId, ch: seq<NodeId>)
    requires WellFormed(ns) && Ordered(ns) && p < |ns|
    requires forall i | 0 <= i < |ch| :: p < ch[i] < |ns| && ns[ch[i]].Element?
    ensures AllOf(ns, [s], codec, p, ch, 0) == Filter(ns, s, codec, PreorderOf(ns, p, ch))
    decreases |ns| - p, 0, |ch|
  {
    if ch != [] {
      SingleSegmentAll(ns, s, codec, ch[0]);
      SingleSegmentAllOf(ns, s, codec, p, ch[1..]);
      FilterAppend(ns, s, codec, Preorder(ns, ch[0]), PreorderOf(ns, p, ch[1..]));
    }
  }

  /**
   * With a single segment, `querySelector` returns the first element in
   * document order that `querySelectorAll` lists, or null when it lists none.
   */
  lemma {:induction false} SingleSegmentFirst(ns: seq<Node>, s: Segment, codec: Codec, n: NodeId)
    requires WellFormed(ns) && Ordered(ns) && n < |ns| && ns[n].Element?
    ensures ExploreFirst(ns, [s], codec, n, 0) == HeadOf(Filter(ns, s, codec, Preorder(ns, n)))
    decreases |ns| - n, 1
  {
    var ch := Kids(ns, n);
    var rest := Filter(ns, s, codec, PreorderOf(ns, n, ch));
    FilterAppend(ns, s, codec, [n], PreorderOf(ns, n, ch));
    if Offer(ns, [s], codec, n, 0) == 1 {
      assert Filter(ns, s, codec, Preorder(ns, n)) == [n] + rest;
    } else {
      assert Filter(ns, s, codec, Preorder(ns, n)) == rest;
      SingleSegmentFirstOf(ns, s, codec, n, ch);
    }
  }

  lemma {:induction false} SingleSegmentFirstOf(ns: seq<Node>, s: Segment, codec: Codec, p: NodeId, ch: seq<NodeId>)
    requires WellFormed(ns) && Ordered(ns) && p < |ns|
    requires forall i | 0 <= i < |ch| :: p < ch[i] < |ns| && ns[ch[i]].Element?
    ensures FirstOf(ns, [s], codec, p, ch, 0) == HeadOf(Filter(ns, s, codec, PreorderOf(ns, p, ch)))
    decreases |ns| - p, 0, |ch|
  {
    if ch != [] {
      SingleSegmentFirst(ns, s, codec, ch[0]);
      SingleSegmentFirstOf(ns, s, codec, p, ch[1..]);
      FilterAppend(ns, s, codec, Preorder(ns, ch[0]), PreorderOf(ns, p, ch[1..]));
      HeadOfAppend(Filter(ns, s, codec, Preorder(ns, ch[0])), Filter(ns, s, codec, PreorderOf(ns, p, ch[1..])));
    }
  }

  // ---------------------------------------------------------------------
  // Any selector

  /**
   * Every element `querySelectorAll` lists lies in the subtree, is named
   * (never the synthetic root) and is accepted by the last segment.
   */
  lemma {:induction false} ExploreAllSound(ns: seq<Node>, segs: seq<Segment>, codec: Codec, n: NodeId, k: nat)
    requires WellFormed(ns) && Ordered(ns) && n < |ns| && ns[n].Element?
    ensures SoundList(ns, segs, codec, ExploreAll(ns, segs, codec, n, k), Preorder(ns, n))
    decreases |ns| - n, 1
  {
    var k' := Offer(ns, segs, codec, n, k);
    var ch := Kids(ns, n);
    var pre := Preorder(ns, n);
    AllOfSound(ns, segs, codec, n, ch, k);
    AllOfSound(ns, segs, codec, n, ch, k');
    PreorderCovers(ns, n);
    SoundWiden(ns, segs, codec, AllOf(ns, segs, codec, n, ch, k), PreorderOf(ns, n, ch), pre);
    SoundWiden(ns, segs, codec, AllOf(ns, segs, codec, n, ch, k'), PreorderOf(ns, n, ch), pre);
    ExploreAllJoins(ns, segs, codec, n, k);
  }

  /** An element's subtree holds the element and its children's subtrees. */
  lemma PreorderCovers(ns: seq<Node>, n: NodeId)
    requires WellFormed(ns) && Ordered(ns) && n < |ns| && ns[n].Element?
    ensures n in Preorder(ns, n)
    ensures forall x | x in PreorderOf(ns, n, Kids(ns, n)) :: x in Preorder(ns, n)
  {
    assert Preorder(ns, n) == [n] + PreorderOf(ns, n, Kids(ns, n));
  }

  /** The result of one `explore` call is sound when its children's searches are. */
  lemma ExploreAllJoins(ns: seq<Node>, segs: seq<Segment>, codec: Codec, n: NodeId, k: nat)
    requires WellFormed(ns) && Ordered(ns) && n < |ns| && ns[n].Element? && n in Preorder(ns, n)
    requires SoundList(ns, segs, codec, AllOf(ns, segs, codec, n, Kids(ns, n), k), Preorder(ns, n))
    requires SoundList(ns, segs, codec, AllOf(ns, segs, codec, n, Kids(ns, n), Offer(ns, segs, codec, n, k)), Preorder(ns, n))
    ensures SoundList(ns, segs, codec, ExploreAll(ns, segs, codec, n, k), Preorder(ns, n))
  {
    var k' := Offer(ns, segs, codec, n, k);
    var pre := Preorder(ns, n);
    var below := AllOf(ns, segs, codec, n, Kids(ns, n), k);
    var all := ExploreAll(ns, segs, codec, n, k);
    if k' == k + 1 && k' == |segs| {
      assert all == [n] + below;
      SoundSelf(ns, segs, codec, n, k, pre);
      SoundAppend(ns, segs, codec, [n], below, pre);
    } else if k' == k + 1 {
      var later := AllOf(ns, segs, codec, n, Kids(ns, n), k');
      assert all == below + later;
      SoundAppend(ns, segs, codec, below, later, pre);
    } else {
      assert all == below;
    }
  }

  /** An element the last segment accepts is a sound listing of itself. */
  lemma SoundSelf(ns: seq<Node>, segs: seq<Segment>, codec: Codec, n: NodeId, k: nat, within: seq<NodeId>)
    requires n < |ns| && ns[n].Element? && n in within
    requires Offer(ns, segs, codec, n, k) == k + 1 == |segs|
    ensures SoundList(ns, segs, codec, [n], within)
  {
  }

  lemma {:induction false} AllOfSound(ns: seq<Node>, segs: seq<Segment>, codec: Codec, p: NodeId, ch: seq<NodeId>, k: nat)
    requires WellFormed(ns) && Ordered(ns) && p < |ns|
    requires forall i | 0 <= i < |ch| :: p < ch[i] < |ns| && ns[ch[i]].Element?
    ensures SoundList(ns, segs, codec, AllOf(ns, segs, codec, p, ch, k), PreorderOf(ns, p, ch))
    decreases |ns| - p, 0, |ch|
  {
    if ch != [] {
      var first := Preorder(ns, ch[0]);
      var rest := PreorderOf(ns, p, ch[1..]);
      ExploreAllSound(ns, segs, codec, ch[0], k);
      AllOfSound(ns, segs, codec, p, ch[1..], k);
      SoundWiden(ns, segs, codec, ExploreAll(ns, segs, codec, ch[0], k), first, first + rest);
      SoundWiden(ns, segs, codec, AllOf(ns, segs, codec, p, ch[1..], k), rest, first + rest);
      SoundAppend(ns, segs, codec, ExploreAll(ns, segs, codec, ch[0], k), AllOf(ns, segs, codec, p, ch[1..], k), first + rest);
    }
  }

  /**
   * Every entry of `xs` lies in `within`, is a named element and is
   * accepted by the last segment.
   */
  predicate SoundList(ns: seq<Node>, segs: seq<Segment>, codec: Codec, xs: seq<NodeId>, within: seq<NodeId>) {
    forall x | x in xs ::
      x in within && |segs| > 0 && x < |ns| && ns[x].Element? && Selected(ns, segs[|segs| - 1], codec, x)
  }

  lemma SoundAppend(ns: seq<Node>, segs: seq<Segment>, codec: Codec, xs: seq<NodeId>, ys: seq<NodeId>, within: seq<NodeId>)
    requires SoundList(ns, segs, codec, xs, within) && SoundList(ns, segs, codec, ys, within)
    ensures SoundList(ns, segs, codec, xs + ys, within)
  {
  }

  lemma SoundWiden(ns: seq<Node>, segs: seq<Segment>, codec: Codec, xs: seq<NodeId>, a: seq<NodeId>, b: seq<NodeId>)
    requires SoundList(ns, segs, codec, xs, a) && forall x | x in a :: x in b
    ensures SoundList(ns, segs, codec, xs, b)
  {
  }

  /** What `querySelector` returns is always among what `querySelectorAll` lists. */
  lemma {:induction false} FirstIsListed(ns: seq<Node>, segs: seq<Segment>, codec: Codec, n: NodeId, k: nat)
    requires WellFormed(ns) && Ordered(ns) && n < |ns| && ns[n].Element?
    ensures ExploreFirst(ns, segs, codec, n, k).Some? ==>
              ExploreFirst(ns, segs, codec, n, k).value in ExploreAll(ns, segs, codec, n, k)
    decreases |ns| - n, 1
  {
    var k' := Offer(ns, segs, codec, n, k);
    var ch := Kids(ns, n);
    FirstOfListed(ns, segs, codec, n, ch, k');
  }

  lemma {:induction false} FirstOfListed(ns: seq<Node>, segs: seq<Segment>, codec: Codec, p: NodeId, ch: seq<NodeId>, k: nat)
    requires WellFormed(ns) && Ordered(ns) && p < |ns|
    requires forall i | 0 <= i < |ch| :: p < ch[i] < |ns| && ns[ch[i]].Element?
    ensures FirstOf(ns, segs, codec, p, ch, k).Some? ==>
              FirstOf(ns, segs, codec, p, ch, k).value in AllOf(ns, segs, codec, p, ch, k)
    decreases |ns| - p, 0, |ch|
  {
    if ch != [] {
      FirstIsListed(ns, segs, codec, ch[0], k);
      FirstOfListed(ns, segs, codec, p, ch[1..], k);
    }
  }

  // ---------------------------------------------------------------------
  // What a selector of several segments selects

  /** A downward path of elements, each an element child of the one before. */
  predicate IsPath(ns: seq<Node>, path: seq<NodeId>)
    requires WellFormed(ns) && Ordered(ns)
  {
    |path| >= 1 &&
    (forall i | 0 <= i < |path| :: path[i] < |ns| && ns[path[i]].Element?) &&
    forall i | 0 <= i < |path| - 1 :: path[i + 1] in Kids(ns, path[i])
  }

  /**
   * The segments `ss` are picked in order by elements of `ps`, not
   * necessarily adjacent ones, each selected by the segment it picks.
   */
  predicate Embeds(ns: seq<Node>, ss: seq<Segment>, codec: Codec, ps: seq<NodeId>)
    requires forall i | 0 <= i < |ps| :: ps[i] < |ns| && ns[ps[i]].Element?
    decreases |ps|
  {
    ss == [] ||
    (ps != [] &&
     (Embeds(ns, ss, codec, ps[1..]) ||
      (Selected(ns, ss[0], codec, ps[0]) && Embeds(ns, ss[1..], codec, ps[1..]))))
  }

  /**
   * The descendant-combinator reading of the segments from the `k`-th on,
   * along `path` from `n` down to `x`: the last segment selects `x`, and
   * the others select, in order, elements strictly above `x` on the path.
   */
  predicate Leads(ns: seq<Node>, segs: seq<Segment>, codec: Codec, k: nat, n: NodeId, x: NodeId, path: seq<NodeId>)
    requires WellFormed(ns) && Ordered(ns)
  {
    IsPath(ns, path) && path[0] == n && path[|path| - 1] == x &&
    k < |segs| && Selected(ns, segs[|segs| - 1], codec, x) &&
    Embeds(ns, segs[k..|segs| - 1], codec, path[..|path| - 1])
  }

  /** Some path from `n` down to `x` leads the segments from the `k`-th on to `x`. */
  ghost predicate Reaches(ns: seq<Node>, segs: seq<Segment>, codec: Codec, k: nat, n: NodeId, x: NodeId)
    requires WellFormed(ns) && Ordered(ns)
  {
    exists path :: Leads(ns, segs, codec, k, n, x, path)
  }

  /** Picking the segments after the first is easier than picking them all. */
  lemma {:induction false} EmbedsDrop(ns: seq<Node>, ss: seq<Segment>, codec: Codec, ps: seq<NodeId>)
    requires forall i | 0 <= i < |ps| :: ps[i] < |ns| && ns[ps[i]].Element?
    requires ss != [] && Embeds(ns, ss, codec, ps)
    ensures Embeds(ns, ss[1..], codec, ps)
    decreases |ps|
  {
    if Embeds(ns, ss, codec, ps[1..]) {
      EmbedsDrop(ns, ss, codec, ps[1..]);
    }
  }

  /** A path that leads the segments from the `k`-th on also leads them from the next one, unless that is the last. */
  lemma LeadsLater(ns: seq<Node>, segs: seq<Segment>, codec: Codec, k: nat, n: NodeId, x: NodeId, path: seq<NodeId>)
    requires WellFormed(ns) && Ordered(ns)
    requires Leads(ns, segs, codec, k, n, x, path) && k + 1 < |segs|
    ensures Leads(ns, segs, codec, k + 1, n, x, path)
  {
    EmbedsDrop(ns, segs[k..|segs| - 1], codec, path[..|path| - 1]);
    assert segs[k..|segs| - 1][1..] == segs[k + 1..|segs| - 1];
  }

  /** The search over the children lists what any one child's search lists. */
  lemma {:induction false} AllOfHas(ns: seq<Node>, segs: seq<Segment>, codec: Codec, p: NodeId, ch: seq<NodeId>, k: nat, j: nat, x: NodeId)
    requires WellFormed(ns) && Ordered(ns) && p < |ns|
    requires forall i | 0 <= i < |ch| :: p < ch[i] < |ns| && ns[ch[i]].Element?
    requires j < |ch|
    ensures x in ExploreAll(ns, segs, codec, ch[j], k) ==> x in AllOf(ns, segs, codec, p, ch, k)
    decreases |ch|
  {
    if j > 0 {
      AllOfHas(ns, segs, codec, p, ch[1..], k, j - 1, x);
    }
  }

  /** Whatever the search over the children lists, one child's search lists. */
  lemma {:induction false} AllOfFrom(ns: seq<Node>, segs: seq<Segment>, codec: Codec, p: NodeId, ch: seq<NodeId>, k: nat, x: NodeId)
    returns (j: nat)
    requires WellFormed(ns) && Ordered(ns) && p < |ns|
    requires forall i | 0 <= i < |ch| :: p < ch[i] < |ns| && ns[ch[i]].Element?
    requires x in AllOf(ns, segs, codec, p, ch, k)
    ensures j < |ch| && x in ExploreAll(ns, segs, codec, ch[j], k)
    decreases |ch|
  {
    if x in ExploreAll(ns, segs, codec, ch[0], k) {
      j := 0;
    } else {
      var j' := AllOfFrom(ns, segs, codec, p, ch[1..], k, x);
      j := j' + 1;
    }
  }

  /** A path of one element: that element completes the chain. */
  lemma LeadsHere(ns: seq<Node>, segs: seq<Segment>, codec: Codec, k: nat, n: NodeId, x: NodeId, path: seq<NodeId>)
    requires WellFormed(ns) && Ordered(ns) && n < |ns| && ns[n].Element?
    requires Leads(ns, segs, codec, k, n, x, path) && |path| == 1
    ensures x == n && Offer(ns, segs, codec, n, k) == k + 1 == |segs|
  {
    assert path[..0] == [];
  }

  /**
   * A longer path goes on from an element child, with the cursor where it
   * was or, when the element is picked, one segment further.
   */
  lemma LeadsDown(ns: seq<Node>, segs: seq<Segment>, codec: Codec, k: nat, n: NodeId, x: NodeId, path: seq<NodeId>)
    requires WellFormed(ns) && Ordered(ns) && n < |ns| && ns[n].Element?
    requires Leads(ns, segs, codec, k, n, x, path) && |path| >= 2
    ensures path[1] in Kids(ns, n)
    ensures Leads(ns, segs, codec, k, path[1], x, path[1..]) ||
            (Offer(ns, segs, codec, n, k) == k + 1 < |segs| && Leads(ns, segs, codec, k + 1, path[1], x, path[1..]))
  {
    var m := |segs|;
    var ss := segs[k..m - 1];
    var ps := path[..|path| - 1];
    var rest := path[1..];
    assert ps[0] == n && ps[1..] == rest[..|rest| - 1];
    assert IsPath(ns, rest);
    if ss != [] && !Embeds(ns, ss, codec, ps[1..]) {
      assert ss[0] == segs[k] && ss[1..] == segs[k + 1..m - 1];
    }
  }

  /** Going up one element from a path leads the segments from the same or the previous cursor. */
  lemma LeadsUp(ns: seq<Node>, segs: seq<Segment>, codec: Codec, k: nat, kc: nat, n: NodeId, x: NodeId, below: seq<NodeId>)
    requires WellFormed(ns) && Ordered(ns) && n < |ns| && ns[n].Element?
    requires |below| >= 1 && Leads(ns, segs, codec, kc, below[0], x, below) && below[0] in Kids(ns, n)
    requires kc == k || (kc == k + 1 && Offer(ns, segs, codec, n, k) == k + 1)
    ensures Leads(ns, segs, codec, k, n, x, [n] + below)
  {
    var m := |segs|;
    var path := [n] + below;
    var ps := path[..|path| - 1];
    assert ps[0] == n && ps[1..] == below[..|below| - 1];
    if kc == k + 1 {
      assert segs[k..m - 1][0] == segs[k] && segs[k..m - 1][1..] == segs[k + 1..m - 1];
    }
    forall i | 0 <= i < |path| - 1
      ensures path[i + 1] in Kids(ns, path[i])
    {
      if i > 0 {
        assert path[i] == below[i - 1] && path[i + 1] == below[i];
      }
    }
  }

  /** What `explore` lists at an element: the element itself when it completes the chain, or what a child's search lists. */
  lemma ExploreAllCases(ns: seq<Node>, segs: seq<Segment>, codec: Codec, n: NodeId, k: nat, x: NodeId)
    requires WellFormed(ns) && Ordered(ns) && n < |ns| && ns[n].Element?
    ensures x in ExploreAll(ns, segs, codec, n, k) <==>
              (x == n && Offer(ns, segs, codec, n, k) == k + 1 == |segs|) ||
              x in AllOf(ns, segs, codec, n, Kids(ns, n), k) ||
              (Offer(ns, segs, codec, n, k) == k + 1 < |segs| && x in AllOf(ns, segs, codec, n, Kids(ns, n), k + 1))
  {
  }

  /** Every path that leads the segments to `x` is followed by `explore`. */
  lemma {:induction false} LeadsListed(ns: seq<Node>, segs: seq<Segment>, codec: Codec, k: nat, n: NodeId, x: NodeId, path: seq<NodeId>)
    requires WellFormed(ns) && Ordered(ns) && n < |ns| && ns[n].Element?
    requires Leads(ns, segs, codec, k, n, x, path)
    ensures x in ExploreAll(ns, segs, codec, n, k)
    decreases |path|
  {
    ExploreAllCases(ns, segs, codec, n, k, x);
    if |path| == 1 {
      LeadsHere(ns, segs, codec, k, n, x, path);
    } else {
      var ch := Kids(ns, n);
      LeadsDown(ns, segs, codec, k, n, x, path);
      var j :| 0 <= j < |ch| && ch[j] == path[1];
      var kc := if Leads(ns, segs, codec, k, path[1], x, path[1..]) then k else k + 1;
      LeadsListed(ns, segs, codec, kc, path[1], x, path[1..]);
      AllOfHas(ns, segs, codec, n, ch, kc, j, x);
    }
  }

  /** Everything `explore` lists is reached along some path the segments lead. */
  lemma {:induction false} ListedLeads(ns: seq<Node>, segs: seq<Segment>, codec: Codec, k: nat, n: NodeId, x: NodeId)
    returns (path: seq<NodeId>)
    requires WellFormed(ns) && Ordered(ns) && n < |ns| && ns[n].Element?
    requires x in ExploreAll(ns, segs, codec, n, k)
    ensures Leads(ns, segs, codec, k, n, x, path)
    decreases |ns| - n
  {
    var ch := Kids(ns, n);
    ExploreAllCases(ns, segs, codec, n, k, x);
    if x == n && Offer(ns, segs, codec, n, k) == k + 1 == |segs| {
      path := [n];
      assert path[..0] == [] && segs[k..|segs| - 1] == [];
    } else {
      var kc: nat := if x in AllOf(ns, segs, codec, n, ch, k) then k else k + 1;
      var j := AllOfFrom(ns, segs, codec, n, ch, kc, x);
      var below := ListedLeads(ns, segs, codec, kc, ch[j], x);
      LeadsUp(ns, segs, codec, k, kc, n, x, below);
      path := [n] + below;
    }
  }

  /**
   * What `querySelectorAll(matcher)` lists is exactly what the selector
   * means with descendant combinators: the elements of the subtree at the
   * end of a path down from the element along which the segments are
   * picked in order.
   */
  lemma ExploreAllMeaning(ns: seq<Node>, segs: seq<Segment>, codec: Codec, n: NodeId, x: NodeId)
    requires WellFormed(ns) && Ordered(ns) && n < |ns| && ns[n].Element?
    ensures x in ExploreAll(ns, segs, codec, n, 0) <==> x in Preorder(ns, n) && Reaches(ns, segs, codec, 0, n, x)
  {
    if x in ExploreAll(ns, segs, codec, n, 0) {
      ExploreAllSound(ns, segs, codec, n, 0);
      var path := ListedLeads(ns, segs, codec, 0, n, x);
    }
    if Reaches(ns, segs, codec, 0, n, x) {
      var path :| Leads(ns, segs, codec, 0, n, x, path);
      LeadsListed(ns, segs, codec, 0, n, x, path);
    }
  }

  /**
   * Below an element that advances the cursor without completing the
   * chain, whatever the rewound search lists the advanced one lists too.
   */
  lemma AllOfLater(ns: seq<Node>, segs: seq<Segment>, codec: Codec, p: NodeId, ch: seq<NodeId>, k: nat, x: NodeId)
    requires WellFormed(ns) && Ordered(ns) && p < |ns|
    requires forall i | 0 <= i < |ch| :: p < ch[i] < |ns| && ns[ch[i]].Element?
    requires k + 1 < |segs| && x in AllOf(ns, segs, codec, p, ch, k)
    ensures x in AllOf(ns, segs, codec, p, ch, k + 1)
  {
    var j := AllOfFrom(ns, segs, codec, p, ch, k, x);
    var path := ListedLeads(ns, segs, codec, k, ch[j], x);
    LeadsLater(ns, segs, codec, k, ch[j], x, path);
    LeadsListed(ns, segs, codec, k + 1, ch[j], x, path);
    AllOfHas(ns, segs, codec, p, ch, k + 1, j, x);
  }

  /** `querySelector(matcher)` finds nothing exactly when `querySelectorAll(matcher)` lists nothing. */
  lemma {:induction false} FirstNoneIffEmpty(ns: seq<Node>, segs: seq<Segment>, codec: Codec, n: NodeId, k: nat)
    requires WellFormed(ns) && Ordered(ns) && n < |ns| && ns[n].Element?
    ensures ExploreFirst(ns, segs, codec, n, k).None? <==> ExploreAll(ns, segs, codec, n, k) == []
    decreases |ns| - n, 1
  {
    var k' := Offer(ns, segs, codec, n, k);
    var ch := Kids(ns, n);
    if !(k' == k + 1 && k' == |segs|) {
      FirstOfNoneIffEmpty(ns, segs, codec, n, ch, k');
      if k' == k + 1 && AllOf(ns, segs, codec, n, ch, k) != [] {
        AllOfLater(ns, segs, codec, n, ch, k, AllOf(ns, segs, codec, n, ch, k)[0]);
      }
    }
  }

  lemma {:induction false} FirstOfNoneIffEmpty(ns: seq<Node>, segs: seq<Segment>, codec: Codec, p: NodeId, ch: seq<NodeId>, k: nat)
    requires WellFormed(ns) && Ordered(ns) && p < |ns|
    requires forall i | 0 <= i < |ch| :: p < ch[i] < |ns| && ns[ch[i]].Element?
    ensures FirstOf(ns, segs, codec, p, ch, k).None? <==> AllOf(ns, segs, codec, p, ch, k) == []
    decreases |ns| - p, 0, |ch|
  {
    if ch != [] {
      FirstNoneIffEmpty(ns, segs, codec, ch[0], k);
      FirstOfNoneIffEmpty(ns, segs, codec, p, ch[1..], k);
    }
  }

  // ---------------------------------------------------------------------
  // Document order

  /** The entries of `xs` that `ys` holds, in the order of `xs`. */
  function Among(xs: seq<NodeId>, ys: seq<NodeId>): (r: seq<NodeId>)
    ensures forall x :: x in r <==> x in xs && x in ys
  {
    if xs == [] then []
    else
      assert forall x :: x in xs <==> x == xs[0] || x in xs[1..];
      (if xs[0] in ys then [xs[0]] else []) + Among(xs[1..], ys)
  }

  lemma {:induction false} AmongAppend(a: seq<NodeId>, b: seq<NodeId>, ys: seq<NodeId>)
    ensures Among(a + b, ys) == Among(a, ys) + Among(b, ys)
  {
    if a == [] {
      assert a + b == b;
    } else {
      assert (a + b)[0] == a[0] && (a + b)[1..] == a[1..] + b;
      AmongAppend(a[1..], b, ys);
    }
  }

  /** Only the entries of `xs` decide what is taken from it. */
  lemma {:induction false} AmongSame(xs: seq<NodeId>, ys: seq<NodeId>, zs: seq<NodeId>)
    requires forall x | x in xs :: x in ys <==> x in zs
    ensures Among(xs, ys) == Among(xs, zs)
  {
    if xs != [] {
      AmongSame(xs[1..], ys, zs);
    }
  }

  /** A list without repetitions stays so when entries are dropped from it. */
  lemma {:induction false} AmongDistinct(xs: seq<NodeId>, ys: seq<NodeId>)
    requires Distinct(xs)
    ensures Distinct(Among(xs, ys))
  {
    if xs != [] {
      var tail := xs[1..];
      DistinctTail(xs);
      AmongDistinct(tail, ys);
      assert Among(xs, ys) == (if xs[0] in ys then [xs[0]] else []) + Among(tail, ys);
    }
  }

  lemma DistinctTail(xs: seq<NodeId>)
    requires xs != [] && Distinct(xs)
    ensures Distinct(xs[1..]) && xs[0] !in xs[1..]
  {
    forall i, j | 0 <= i < j < |xs| - 1
      ensures xs[1..][i] != xs[1..][j]
    {
      assert xs[1..][i] == xs[i + 1] && xs[1..][j] == xs[j + 1];
    }
  }

  /** Past the head of a list, an entry is found one place later than in the tail. */
  lemma FirstIndexShift(xs: seq<NodeId>, y: NodeId)
    requires xs != [] && y in xs[1..] && y != xs[0]
    ensures FirstIndex(xs, y) == 1 + FirstIndex(xs[1..], y)
  {
  }

  /** The entries of `r` occur in `xs` in the order they have in `r`. */
  predicate Follows(xs: seq<NodeId>, r: seq<NodeId>)
    requires forall y | y in r :: y in xs
  {
    forall i, j | 0 <= i < j < |r| :: FirstIndex(xs, r[i]) < FirstIndex(xs, r[j])
  }

  /** An entry of the tail of a list, other than its head, is an entry of the list. */
  lemma InTail(xs: seq<NodeId>, y: NodeId)
    requires xs != [] && y in xs[1..] && y != xs[0]
    ensures y in xs && FirstIndex(xs, y) == 1 + FirstIndex(xs[1..], y)
  {
    var k :| 0 <= k < |xs[1..]| && xs[1..][k] == y;
    assert xs[k + 1] == y;
    FirstIndexShift(xs, y);
  }

  /** Entries of the tail of a list without its head keep their order in the whole list. */
  lemma FollowsTail(xs: seq<NodeId>, t: seq<NodeId>)
    requires xs != [] && xs[0] !in t && (forall y | y in t :: y in xs[1..]) && Follows(xs[1..], t)
    ensures (forall y | y in t :: y in xs) && Follows(xs, t)
  {
    forall y | y in t
      ensures y in xs && FirstIndex(xs, y) == 1 + FirstIndex(xs[1..], y)
    {
      InTail(xs, y);
    }
  }

  /** The head of a list goes first in front of other entries in its order. */
  lemma FollowsHead(xs: seq<NodeId>, t: seq<NodeId>)
    requires xs != [] && xs[0] !in t && (forall y | y in t :: y in xs) && Follows(xs, t)
    ensures (forall y | y in [xs[0]] + t :: y in xs) && Follows(xs, [xs[0]] + t)
  {
    var r := [xs[0]] + t;
    assert forall y | y in r :: y == xs[0] || y in t;
    forall i, j | 0 <= i < j < |r|
      ensures FirstIndex(xs, r[i]) < FirstIndex(xs, r[j])
    {
      assert r[j] == t[j - 1] && r[j] != xs[0];
      if i > 0 {
        assert r[i] == t[i - 1];
      }
    }
  }

  /** Entries taken from a list without repetitions keep its order. */
  lemma {:induction false} AmongOrder(xs: seq<NodeId>, ys: seq<NodeId>)
    requires Distinct(xs)
    ensures Follows(xs, Among(xs, ys))
  {
    if xs != [] {
      var tail := xs[1..];
      DistinctTail(xs);
      AmongOrder(tail, ys);
      var t := Among(tail, ys);
      FollowsTail(xs, t);
      if xs[0] in ys {
        FollowsHead(xs, t);
        assert Among(xs, ys) == [xs[0]] + t;
      } else {
        assert Among(xs, ys) == t;
      }
    }
  }

  /** A list without repetitions splits into two such lists with nothing in common. */
  lemma DistinctSplit(a: seq<NodeId>, b: seq<NodeId>)
    requires Distinct(a + b)
    ensures Distinct(a) && Distinct(b) && forall x | x in a :: x !in b
  {
    forall i, j | 0 <= i < j < |a|
      ensures a[i] != a[j]
    {
      assert a[i] == (a + b)[i] && a[j] == (a + b)[j];
    }
    forall i, j | 0 <= i < j < |b|
      ensures b[i] != b[j]
    {
      assert b[i] == (a + b)[|a| + i] && b[j] == (a + b)[|a| + j];
    }
    forall i, j | 0 <= i < |a| && 0 <= j < |b|
      ensures a[i] != b[j]
    {
      assert a[i] == (a + b)[i] && b[j] == (a + b)[|a| + j];
    }
  }

  /**
   * `querySelector(matcher)` returns the first element, in document order,
   * of those `querySelectorAll(matcher)` lists, in a subtree where no
   * element occurs twice.
   */
  lemma {:induction false} FirstIsEarliest(ns: seq<Node>, segs: seq<Segment>, codec: Codec, n: NodeId, k: nat)
    requires WellFormed(ns) && Ordered(ns) && n < |ns| && ns[n].Element?
    requires Distinct(Preorder(ns, n))
    ensures ExploreFirst(ns, segs, codec, n, k) == HeadOf(Among(Preorder(ns, n), ExploreAll(ns, segs, codec, n, k)))
    decreases |ns| - n, 1
  {
    var k' := Offer(ns, segs, codec, n, k);
    var ch := Kids(ns, n);
    var below := PreorderOf(ns, n, ch);
    var all := ExploreAll(ns, segs, codec, n, k);
    var later := AllOf(ns, segs, codec, n, ch, k');
    assert Preorder(ns, n) == [n] + below;
    AmongAppend([n], below, all);
    assert [n][1..] == [];
    if k' == k + 1 && k' == |segs| {
      assert n in all;
      assert Among([n], all) == [n] + Among([], all);
    } else {
      assert ExploreFirst(ns, segs, codec, n, k) == FirstOf(ns, segs, codec, n, ch, k');
      assert Distinct(below) && n !in below by {
        DistinctSplit([n], below);
      }
      FirstOfIsEarliest(ns, segs, codec, n, ch, k');
      assert n !in all by {
        AllOfSound(ns, segs, codec, n, ch, k);
        AllOfSound(ns, segs, codec, n, ch, k');
      }
      assert Among([n], all) == [] + Among([], all);
      forall x | x in below
        ensures x in all <==> x in later
      {
        if k' == k + 1 && x in AllOf(ns, segs, codec, n, ch, k) {
          AllOfLater(ns, segs, codec, n, ch, k, x);
        }
      }
      AmongSame(below, all, later);
    }
  }

  lemma {:induction false} FirstOfIsEarliest(ns: seq<Node>, segs: seq<Segment>, codec: Codec, p: NodeId, ch: seq<NodeId>, k: nat)
    requires WellFormed(ns) && Ordered(ns) && p < |ns|
    requires forall i | 0 <= i < |ch| :: p < ch[i] < |ns| && ns[ch[i]].Element?
    requires Distinct(PreorderOf(ns, p, ch))
    ensures FirstOf(ns, segs, codec, p, ch, k) == HeadOf(Among(PreorderOf(ns, p, ch), AllOf(ns, segs, codec, p, ch, k)))
    decreases |ns| - p, 0, |ch|
  {
    if ch != [] {
      var a := Preorder(ns, ch[0]);
      var b := PreorderOf(ns, p, ch[1..]);
      var ea := ExploreAll(ns, segs, codec, ch[0], k);
      var eb := AllOf(ns, segs, codec, p, ch[1..], k);
      assert PreorderOf(ns, p, ch) == a + b;
      assert AllOf(ns, segs, codec, p, ch, k) == ea + eb;
      DistinctSplit(a, b);
      FirstIsEarliest(ns, segs, codec, ch[0], k);
      FirstOfIsEarliest(ns, segs, codec, p, ch[1..], k);
      ExploreAllSound(ns, segs, codec, ch[0], k);
      AllOfSound(ns, segs, codec, p, ch[1..], k);
      AmongAppend(a, b, ea + eb);
      AmongSame(a, ea + eb, ea);
      AmongSame(b, ea + eb, eb);
      HeadOfAppend(Among(a, ea), Among(b, eb));
    }
  }

  /**
   * The listing `querySelectorAll(matcher)` is evidently meant to give:
   * what the search lists, each element once, in document order. The
   * string overload removes repeats (src/index.ts:408-409) and
   * `querySelector` returns the first match in document order.
   */
  function InDocumentOrder(ns: seq<Node>, segs: seq<Segment>, codec: Codec, p: NodeId): (r: seq<NodeId>)
    requires WellFormed(ns) && Ordered(ns) && p < |ns| && ns[p].Element?
    ensures forall x :: x in r <==> x in ExploreAll(ns, segs, codec, p, 0)
    ensures forall x | x in r :: x in Preorder(ns, p)
  {
    ExploreAllSound(ns, segs, codec, p, 0);
    Among(Preorder(ns, p), ExploreAll(ns, segs, codec, p, 0))
  }

  /**
   * In a subtree where no element occurs twice, the corrected listing has
   * no repetitions, follows document order, holds exactly the elements the
   * selector means, and starts with what `querySelector(matcher)` returns.
   */
  lemma InDocumentOrderSorted(ns: seq<Node>, segs: seq<Segment>, codec: Codec, p: NodeId)
    requires WellFormed(ns) && Ordered(ns) && p < |ns| && ns[p].Element?
    requires Distinct(Preorder(ns, p))
    ensures Distinct(InDocumentOrder(ns, segs, codec, p))
    ensures forall i, j | 0 <= i < j < |InDocumentOrder(ns, segs, codec, p)| ::
              FirstIndex(Preorder(ns, p), InDocumentOrder(ns, segs, codec, p)[i]) <
              FirstIndex(Preorder(ns, p), InDocumentOrder(ns, segs, codec, p)[j])
    ensures forall x :: x in InDocumentOrder(ns, segs, codec, p) <==> x in Preorder(ns, p) && Reaches(ns, segs, codec, 0, p, x)
    ensures ExploreFirst(ns, segs, codec, p, 0) == HeadOf(InDocumentOrder(ns, segs, codec, p))
  {
    AmongDistinct(Preorder(ns, p), ExploreAll(ns, segs, codec, p, 0));
    AmongOrder(Preorder(ns, p), ExploreAll(ns, segs, codec, p, 0));
    FirstIsEarliest(ns, segs, codec, p, 0);
    forall x
      ensures x in InDocumentOrder(ns, segs, codec, p) <==> x in Preorder(ns, p) && Reaches(ns, segs, codec, 0, p, x)
    {
      ExploreAllMeaning(ns, segs, codec, p, x);
    }
  }

  // ---------------------------------------------------------------------
  // The two overloads of querySelectorAll and querySelector

  /** No element is listed twice. */
  predicate Distinct(xs: seq<NodeId>) {
    forall i, j | 0 <= i < j < |xs| :: xs[i] != xs[j]
  }

  /** `Array.from(new Set(xs))`: first occurrences, in order. */
  function Dedup(xs: seq<NodeId>): (r: seq<NodeId>)
    ensures forall x :: x in r <==> x in xs
    ensures Distinct(r)
  {
    if xs == [] then []
    else
      var d := Dedup(xs[..|xs| - 1]);
      var x := xs[|xs| - 1];
      assert xs == xs[..|xs| - 1] + [x];
      if x in d then d else d + [x]
  }

  /** Where `x` first occurs in `xs`. */
  function FirstIndex(xs: seq<NodeId>, x: NodeId): (r: nat)
    requires x in xs
    ensures r < |xs| && xs[r] == x && forall k | 0 <= k < r :: xs[k] != x
  {
    if xs[0] == x then 0 else 1 + FirstIndex(xs[1..], x)
  }

  /** A first occurrence before the end of `xs` is also the first occurrence in a longer list. */
  lemma FirstIndexPrefix(xs: seq<NodeId>, ys: seq<NodeId>, x: NodeId)
    requires x in xs
    ensures x in xs + ys && FirstIndex(xs + ys, x) == FirstIndex(xs, x)
  {
    var j := FirstIndex(xs, x);
    assert (xs + ys)[j] == x;
  }

  /**
   * De-duplication keeps the elements in the order of their first
   * occurrences: with membership and distinctness, this pins the list down.
   */
  lemma {:induction false} DedupOrder(xs: seq<NodeId>)
    ensures forall i, j | 0 <= i < j < |Dedup(xs)| :: FirstIndex(xs, Dedup(xs)[i]) < FirstIndex(xs, Dedup(xs)[j])
  {
    if xs != [] {
      var init := xs[..|xs| - 1];
      var x := xs[|xs| - 1];
      var d := Dedup(init);
      DedupOrder(init);
      assert xs == init + [x];
      var r := Dedup(xs);
      assert r == if x in d then d else d + [x];
      forall i, j | 0 <= i < j < |r|
        ensures FirstIndex(xs, r[i]) < FirstIndex(xs, r[j])
      {
        assert r[i] == d[i] && d[i] in init;
        FirstIndexPrefix(init, [x], d[i]);
        assert FirstIndex(xs, r[i]) == FirstIndex(init, d[i]) < |init|;
        if j < |d| {
          assert r[j] == d[j] && d[j] in init;
          FirstIndexPrefix(init, [x], d[j]);
          assert FirstIndex(xs, r[j]) == FirstIndex(init, d[j]);
          assert FirstIndex(init, d[i]) < FirstIndex(init, d[j]);
        } else {
          assert r[j] == x && x !in init;
          assert FirstIndex(xs, x) == |init|;
        }
      }
    }
  }

  /** A list without repetitions is its own de-duplication. */
  lemma {:induction false} DedupDistinct(xs: seq<NodeId>)
    requires Distinct(xs)
    ensures Dedup(xs) == xs
  {
    if xs != [] {
      var init := xs[..|xs| - 1];
      assert Distinct(init);
      DedupDistinct(init);
      assert xs[|xs| - 1] !in init;
      assert xs == init + [xs[|xs| - 1]];
    }
  }

  /** `parts.map(part => explore(root, new Matcher(part), true)).flat()` */
  function AllParts(ns: seq<Node>, parts: seq<seq<Segment>>, codec: Codec, p: NodeId): seq<NodeId>
    requires WellFormed(ns) && Ordered(ns) && p < |ns| && ns[p].Element?
  {
    if parts == [] then []
    else ExploreAll(ns, parts[0], codec, p, 0) + AllParts(ns, parts[1..], codec, p)
  }

  /**
   * `querySelectorAll(selector)` for a selector string already split at
   * commas into non-blank parts, each compiled to its segments.
   */
  function QuerySelectorAll(ns: seq<Node>, parts: seq<seq<Segment>>, codec: Codec, p: NodeId): seq<NodeId>
    requires WellFormed(ns) && Ordered(ns) && p < |ns| && ns[p].Element?
  {
    Dedup(AllParts(ns, parts, codec, p))
  }

  lemma {:induction false} AllPartsMembers(ns: seq<Node>, parts: seq<seq<Segment>>, codec: Codec, p: NodeId, x: NodeId)
    requires WellFormed(ns) && Ordered(ns) && p < |ns| && ns[p].Element?
    ensures x in AllParts(ns, parts, codec, p) <==>
              exists i | 0 <= i < |parts| :: x in ExploreAll(ns, parts[i], codec, p, 0)
  {
    if parts != [] {
      AllPartsMembers(ns, parts[1..], codec, p, x);
      if exists i | 0 <= i < |parts| :: x in ExploreAll(ns, parts[i], codec, p, 0) {
        var i :| 0 <= i < |parts| && x in ExploreAll(ns, parts[i], codec, p, 0);
        if i > 0 {
          assert parts[i] == parts[1..][i - 1];
        }
      }
      if exists i | 0 <= i < |parts[1..]| :: x in ExploreAll(ns, parts[1..][i], codec, p, 0) {
        var i :| 0 <= i < |parts[1..]| && x in ExploreAll(ns, parts[1..][i], codec, p, 0);
        assert parts[1..][i] == parts[i + 1];
      }
    }
  }

  /**
   * The string overload lists each element once, and exactly the elements
   * some comma-separated part selects.
   */
  lemma QuerySelectorAllMembers(ns: seq<Node>, parts: seq<seq<Segment>>, codec: Codec, p: NodeId)
    requires WellFormed(ns) && Ordered(ns) && p < |ns| && ns[p].Element?
    ensures Distinct(QuerySelectorAll(ns, parts, codec, p))
    ensures forall x :: x in QuerySelectorAll(ns, parts, codec, p) <==>
              exists i | 0 <= i < |parts| :: x in ExploreAll(ns, parts[i], codec, p, 0)
  {
    forall x
      ensures x in QuerySelectorAll(ns, parts, codec, p) <==>
                exists i | 0 <= i < |parts| :: x in ExploreAll(ns, parts[i], codec, p, 0)
    {
      AllPartsMembers(ns, parts, codec, p, x);
    }
  }

  /**
   * `querySelector(selector)` for a selector string already split at commas
   * into non-blank parts: the parts are tried in order and the first hit is
   * returned. It finds nothing exactly when no part finds anything, and what
   * it finds is among what `querySelectorAll` lists.
   */
  method QuerySelector(ns: seq<Node>, parts: seq<seq<Segment>>, codec: Codec, p: NodeId) returns (r: Option<NodeId>)
    requires WellFormed(ns) && Ordered(ns) && p < |ns| && ns[p].Element?
    ensures r.None? <==> MissedBefore(ns, parts, codec, p, |parts|)
    ensures r.Some? ==>
              exists i | 0 <= i < |parts| :: ExploreFirst(ns, parts[i], codec, p, 0) == r && MissedBefore(ns, parts, codec, p, i)
    ensures r.Some? ==> r.value in QuerySelectorAll(ns, parts, codec, p)
  {
    for i := 0 to |parts|
      invariant MissedBefore(ns, parts, codec, p, i)
    {
      var result := ExploreFirst(ns, parts[i], codec, p, 0);
      if result.Some? {
        PartHitListed(ns, parts, codec, p, i);
        return result;
      }
      MissedStep(ns, parts, codec, p, i);
    }
    return None;
  }

  /** No part before the `i`-th finds anything on its own. */
  predicate MissedBefore(ns: seq<Node>, parts: seq<seq<Segment>>, codec: Codec, p: NodeId, i: nat)
    requires WellFormed(ns) && Ordered(ns) && p < |ns| && ns[p].Element? && i <= |parts|
  {
    forall j | 0 <= j < i :: ExploreFirst(ns, parts[j], codec, p, 0).None?
  }

  lemma MissedStep(ns: seq<Node>, parts: seq<seq<Segment>>, codec: Codec, p: NodeId, i: nat)
    requires WellFormed(ns) && Ordered(ns) && p < |ns| && ns[p].Element? && i < |parts|
    requires MissedBefore(ns, parts, codec, p, i) && ExploreFirst(ns, parts[i], codec, p, 0).None?
    ensures MissedBefore(ns, parts, codec, p, i + 1)
  {
  }

  /** What one part's search finds is among what `querySelectorAll` lists. */
  lemma PartHitListed(ns: seq<Node>, parts: seq<seq<Segment>>, codec: Codec, p: NodeId, i: nat)
    requires WellFormed(ns) && Ordered(ns) && p < |ns| && ns[p].Element?
    requires i < |parts| && ExploreFirst(ns, parts[i], codec, p, 0).Some?
    ensures ExploreFirst(ns, parts[i], codec, p, 0).value in QuerySelectorAll(ns, parts, codec, p)
  {
    FirstIsListed(ns, parts[i], codec, p, 0);
    QuerySelectorAllMembers(ns, parts, codec, p);
  }

  /**
   * `querySelectorAll(matcher)`: the matcher is reset and handed to the
   * search, which offers it the element itself (so its cursor is left where
   * that advance put it); the result is not de-duplicated.
   */
  method QuerySelectorAllWith(doc: Document, p: NodeId, m: Matcher, codec: Codec) returns (r: seq<NodeId>)
    requires doc.Valid() && Ordered(doc.nodes) && p < |doc.nodes| && doc.nodes[p].Element?
    modifies m
    ensures m.segments == old(m.segments) && m.nextMatch == Offer(doc.nodes, m.segments, codec, p, 0)
    ensures r == ExploreAll(doc.nodes, m.segments, codec, p, 0)
  {
    m.Reset();
    if doc.nodes[p].tagName != "" {
      var _ := m.Advance(ViewOf(doc.nodes[p], codec));
    }
    r := ExploreAll(doc.nodes, m.segments, codec, p, 0);
  }

  /** `querySelector(matcher)`: as above, for the first result. */
  method QuerySelectorWith(doc: Document, p: NodeId, m: Matcher, codec: Codec) returns (r: Option<NodeId>)
    requires doc.Valid() && Ordered(doc.nodes) && p < |doc.nodes| && doc.nodes[p].Element?
    modifies m
    ensures m.segments == old(m.segments) && m.nextMatch == Offer(doc.nodes, m.segments, codec, p, 0)
    ensures r == ExploreFirst(doc.nodes, m.segments, codec, p, 0)
  {
    m.Reset();
    if doc.nodes[p].tagName != "" {
      var _ := m.Advance(ViewOf(doc.nodes[p], codec));
    }
    r := ExploreFirst(doc.nodes, m.segments, codec, p, 0);
  }

  // ---------------------------------------------------------------------
  // Repeated results

  /** `<a><a><b></b></a></a>`, with no attributes. */
  function NestedTree(): seq<Node> {
    [Element(None, "a", "", [1], "", [], None, None),
     Element(Some(0), "a", "", [2], "", [], None, None),
     Element(Some(1), "b", "", [], "", [], None, None)]
  }

  /** The segments of `a b`. */
  function TagChain(): seq<Segment> {
    [Segment("a", "", [], []), Segment("b", "", [], [])]
  }

  lemma NestedTreeShape()
    ensures WellFormed(NestedTree()) && Ordered(NestedTree())
    ensures Kids(NestedTree(), 0) == [1] && Kids(NestedTree(), 1) == [2] && Kids(NestedTree(), 2) == []
  {
  }

  /** Where the cursor goes when each element of the tree is offered. */
  lemma NestedTreeOffers(codec: Codec)
    ensures Offer(NestedTree(), TagChain(), codec, 0, 0) == 1
    ensures Offer(NestedTree(), TagChain(), codec, 1, 0) == 1
    ensures Offer(NestedTree(), TagChain(), codec, 1, 1) == 1
    ensures Offer(NestedTree(), TagChain(), codec, 2, 0) == 0
    ensures Offer(NestedTree(), TagChain(), codec, 2, 1) == 2
  {
    var ns := NestedTree();
    var segs := TagChain();
    forall n | 0 <= n < 3
      ensures SegmentAccepts(segs[0], ViewOf(ns[n], codec)) <==> ns[n].tagName == "a"
      ensures SegmentAccepts(segs[1], ViewOf(ns[n], codec)) <==> ns[n].tagName == "b"
    {
      SegmentAcceptsIff(segs[0], ViewOf(ns[n], codec));
      SegmentAcceptsIff(segs[1], ViewOf(ns[n], codec));
    }
  }

  /**
   * The search behind `querySelectorAll(matcher)` lists the same element
   * twice: the `b` is reached once through the outer `a` matched with the
   * cursor rewound and once with it advanced.
   */
  lemma NestedTagsRepeat(codec: Codec)
    ensures WellFormed(NestedTree()) && Ordered(NestedTree())
    ensures ExploreAll(NestedTree(), TagChain(), codec, 0, 0) == [2, 2]
  {
    NestedTreeShape();
    NestedTreeOffers(codec);
    NestedOuter(codec);
    AdvancedUnfinished(NestedTree(), TagChain(), codec, 0, 0);
  }

  /** Below an element that advances the cursor without completing the chain, both cursors are searched. */
  lemma AdvancedUnfinished(ns: seq<Node>, segs: seq<Segment>, codec: Codec, n: NodeId, k: nat)
    requires WellFormed(ns) && Ordered(ns) && n < |ns| && ns[n].Element?
    requires Offer(ns, segs, codec, n, k) == k + 1 < |segs|
    ensures ExploreAll(ns, segs, codec, n, k) == AllOf(ns, segs, codec, n, Kids(ns, n), k) + AllOf(ns, segs, codec, n, Kids(ns, n), k + 1)
  {
  }

  lemma NestedOuter(codec: Codec)
    ensures WellFormed(NestedTree()) && Ordered(NestedTree())
    ensures AllOf(NestedTree(), TagChain(), codec, 0, [1], 0) == [2]
    ensures AllOf(NestedTree(), TagChain(), codec, 0, [1], 1) == [2]
  {
    NestedTreeShape();
    NestedInner(codec);
    AllOfOne(NestedTree(), TagChain(), codec, 0, 1, 0);
    AllOfOne(NestedTree(), TagChain(), codec, 0, 1, 1);
  }

  /** Searching a single child is exploring that child. */
  lemma AllOfOne(ns: seq<Node>, segs: seq<Segment>, codec: Codec, p: NodeId, c: NodeId, k: nat)
    requires WellFormed(ns) && Ordered(ns) && p < c < |ns| && ns[c].Element?
    ensures AllOf(ns, segs, codec, p, [c], k) == ExploreAll(ns, segs, codec, c, k)
  {
    assert [c][1..] == [];
    assert AllOf(ns, segs, codec, p, [], k) == [];
  }

  lemma NestedInner(codec: Codec)
    ensures WellFormed(NestedTree()) && Ordered(NestedTree())
    ensures ExploreAll(NestedTree(), TagChain(), codec, 1, 0) == [2]
    ensures ExploreAll(NestedTree(), TagChain(), codec, 1, 1) == [2]
  {
    NestedTreeShape();
    NestedTreeOffers(codec);
    var ns := NestedTree();
    var segs := TagChain();
    assert ExploreAll(ns, segs, codec, 2, 0) == [];
    assert ExploreAll(ns, segs, codec, 2, 1) == [2];
    assert AllOf(ns, segs, codec, 1, [2], 0) == [];
    assert AllOf(ns, segs, codec, 1, [2], 1) == [2];
  }

  /**
   * `querySelectorAll(matcher)` with each element listed once, as the
   * string overload does through its `Set`.
   */
  function DistinctMatches(ns: seq<Node>, segs: seq<Segment>, codec: Codec, p: NodeId): (r: seq<NodeId>)
    requires WellFormed(ns) && Ordered(ns) && p < |ns| && ns[p].Element?
    ensures Distinct(r)
    ensures forall x :: x in r <==> x in ExploreAll(ns, segs, codec, p, 0)
  {
    Dedup(ExploreAll(ns, segs, codec, p, 0))
  }

  /** For one selector part the de-duplicated search and the string overload agree. */
  lemma DistinctMatchesIsStringOverload(ns: seq<Node>, segs: seq<Segment>, codec: Codec, p: NodeId)
    requires WellFormed(ns) && Ordered(ns) && p < |ns| && ns[p].Element?
    ensures DistinctMatches(ns, segs, codec, p) == QuerySelectorAll(ns, [segs], codec, p)
  {
    assert AllParts(ns, [segs], codec, p) == ExploreAll(ns, segs, codec, p, 0) + [];
    assert ExploreAll(ns, segs, codec, p, 0) + [] == ExploreAll(ns, segs, codec, p, 0);
  }

  /**
   * For a selector of one part and one segment, the string overload lists
   * exactly what the segment selects in document order, when no element
   * occurs twice in the subtree.
   */
  lemma OnePartInDocumentOrder(ns: seq<Node>, s: Segment, codec: Codec, p: NodeId)
    requires WellFormed(ns) && Ordered(ns) && p < |ns| && ns[p].Element?
    requires Distinct(Preorder(ns, p))
    ensures QuerySelectorAll(ns, [[s]], codec, p) == Filter(ns, s, codec, Preorder(ns, p))
  {
    SingleSegmentAll(ns, s, codec, p);
    DistinctMatchesIsStringOverload(ns, [s], codec, p);
    FilterDistinct(ns, s, codec, Preorder(ns, p));
    DedupDistinct(Filter(ns, s, codec, Preorder(ns, p)));
  }
}
