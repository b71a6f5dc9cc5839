/**
 * The selector matcher: the compiled segments of a descendant chain and a
 * cursor `nextMatch` naming the next segment to satisfy. The tree search
 * advances the cursor on each element it enters and clones it per child.
 */
module Matching {
  import opened Selectors

  /**
   * The cursor after offering an element: one further when the segment
   * under the cursor accepts it, unchanged otherwise.
   */
  function Step(segments: seq<Segment>, k: int, e: ElementView): (k': int)
    requires 0 <= k
    ensures k < |segments| && SegmentAccepts(segments[k], e) ==> k' == k + 1
    ensures !(k < |segments| && SegmentAccepts(segments[k], e)) ==> k' == k
  {
    if k < |segments| && SegmentAccepts(segments[k], e) then k + 1 else k
  }

  /** A cursor that starts within the chain stays within it, whatever elements are offered. */
  lemma {:induction false} StepsStayInRange(segments: seq<Segment>, k: int, es: seq<ElementView>)
    requires 0 <= k <= |segments|
    ensures 0 <= Steps(segments, k, es) <= |segments|
    ensures Steps(segments, k, es) <= k + |es|
    decreases |es|
  {
    if es != [] {
      StepsStayInRange(segments, Step(segments, k, es[0]), es[1..]);
    }
  }

  /** The cursor after offering several elements in turn. */
  function Steps(segments: seq<Segment>, k: int, es: seq<ElementView>): int
    requires 0 <= k
    decreases |es|
  {
    if es == [] then k else Steps(segments, Step(segments, k, es[0]), es[1..])
  }

  /** Once the whole chain is matched, no further element moves the cursor. */
  lemma MatchedIsFinal(segments: seq<Segment>, es: seq<ElementView>)
    ensures Steps(segments, |segments|, es) == |segments|
    decreases |es|
  {
    StepsStayInRange(segments, |segments|, es);
    if es != [] {
      MatchedIsFinal(segments, es[1..]);
    }
  }

  class Matcher {
    var segments: seq<Segment>
    var nextMatch: int

    /** A matcher at the start of its chain. */
    constructor(segments: seq<Segment>)
      ensures this.segments == segments && nextMatch == 0
    {
      this.segments := segments;
      nextMatch := 0;
    }

    /**
     * Offers an element to the segment under the cursor; on acceptance the
     * cursor moves one further and the result is true.
     */
    method Advance(e: ElementView) returns (advanced: bool)
      requires 0 <= nextMatch
      modifies this
      ensures segments == old(segments)
      ensures nextMatch == Step(segments, old(nextMatch), e)
      ensures advanced <==> nextMatch == old(nextMatch) + 1
      ensures advanced <==> old(nextMatch) < |segments| && SegmentAccepts(segments[old(nextMatch)], e)
    {
      if nextMatch < |segments| && SegmentAccepts(segments[nextMatch], e) {
        nextMatch := nextMatch + 1;
        return true;
      }
      return false;
    }

    /** Moves the cursor one back, unconditionally. */
    method Rewind()
      modifies this
      ensures segments == old(segments) && nextMatch == old(nextMatch) - 1
    {
      nextMatch := nextMatch - 1;
    }

    /** The whole chain has been matched. */
    predicate Matched()
      reads this
    {
      nextMatch == |segments|
    }

    /** Moves the cursor back to the first segment. */
    method Reset()
      modifies this
      ensures segments == old(segments) && nextMatch == 0
    {
      nextMatch := 0;
    }

    /** A new matcher sharing the segments, at the same cursor. */
    method Clone() returns (c: Matcher)
      ensures fresh(c)
      ensures c.segments == segments && c.nextMatch == nextMatch
    {
      c := new Matcher([]);
      c.segments := segments;
      c.nextMatch := nextMatch;
    }
  }

  /** A rewind straight after a successful advance restores the cursor. */
  method AdvanceThenRewind(m: Matcher, e: ElementView) returns (advanced: bool)
    requires 0 <= m.nextMatch
    modifies m
    ensures m.segments == old(m.segments) && m.nextMatch == old(m.nextMatch)
  {
    advanced := m.Advance(e);
    if advanced {
      m.Rewind();
    }
  }

  /** A matcher that has matched its whole chain accepts no further element and stays matched. */
  method AdvanceWhenMatched(m: Matcher, e: ElementView) returns (advanced: bool)
    requires m.Matched()
    modifies m
    ensures !advanced && m.Matched() && m.segments == old(m.segments)
  {
    advanced := m.Advance(e);
  }

  /** Advancing a clone leaves the original's cursor where it was. */
  method AdvanceClone(m: Matcher, e: ElementView) returns (c: Matcher)
    requires 0 <= m.nextMatch
    ensures fresh(c) && c.segments == m.segments
    ensures c.nextMatch == Step(m.segments, m.nextMatch, e)
    ensures m.nextMatch == old(m.nextMatch)
  {
    c := m.Clone();
    var _ := c.Advance(e);
  }
}
