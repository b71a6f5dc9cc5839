/**
 * The tolerant tree builder `parse`: a scan over the markup found in the
 * input, a stack of open elements whose bottom is a synthetic root with an
 * empty tag, and an end-of-input repair of the elements left open.
 *
 * The markup regular expression is not modelled: the scan asks a `Scanner`
 * for the next piece of markup at or after a position, and `ScannerSound`
 * states what the expression guarantees about its matches (they lie ahead
 * of the position, inside the input, and a tag name is never empty).
 */
module Parser {
  import opened Wrappers
  import opened Strings
  import opened Dom

  /** The recognised parser options; an absent option is false. */
  datatype Options = Options(lowerCaseTagName: bool, script: bool, style: bool, pre: bool, comment: bool)

  /** The options `parse` gets when none are passed. */
  const NoOptions: Options := Options(false, false, false, false, false)

  /** What a match of the markup expression is: a comment, or a start or end tag. */
  datatype Markup =
    | CommentMarkup
    | Tag(closing: bool, name: string, attrs: string, selfClosing: bool)

  /** A match: the markup spans `start` up to (not including) `end`. */
  datatype MarkupMatch = MarkupMatch(start: nat, end: nat, markup: Markup)

  /** The next match at or after a position of the input, if any. */
  type Scanner = (string, nat) -> Option<MarkupMatch>

  /** A match found searching from `from` in an input of length `len`. */
  predicate FoundFrom(m: MarkupMatch, from: nat, len: nat) {
    from <= m.start < m.end <= len &&
    (m.markup.CommentMarkup? ==> m.start + 7 <= m.end) &&
    (m.markup.Tag? ==> m.markup.name != "")
  }

  /**
   * The scanner behaves as the markup expression does: a match lies at or
   * after the search position, is not empty, ends inside the input, a
   * comment spans at least `<!---->`, and a tag has a non-empty name.
   */
  predicate ScannerSound(scan: Scanner, data: string) {
    forall from: nat | from <= |data| :: scan(data, from).Some? ==> FoundFrom(scan(data, from).value, from, |data|)
  }

  // ---------------------------------------------------------------------
  // The tag tables

  /** Tags of void elements: a start tag closes at once, an end tag is ignored. */
  const VoidTags: set<string> := {"area", "base", "br", "col", "hr", "img", "input", "link", "meta", "source"}

  /** Tags whose content is raw text, up to the literal end tag. */
  const RawTextTags: set<string> := {"script", "noscript", "style", "pre"}

  const HeadingLike: set<string> := {"p", "h1", "h2", "h3", "h4", "h5", "h6"}
  const TableSections: set<string> := {"tr", "thead", "tbody", "tfoot"}

  /**
   * The start tags that implicitly close an open element with tag `open`.
   * The root's empty tag has no entry, so the root is never closed this way.
   */
  function ClosedByOpening(open: string): (r: set<string>)
    ensures open == "" ==> r == {}
    ensures r != {} ==> open in r || open in {"b", "colgroup"}
  {
    if open == "li" then {"li"}
    else if open in HeadingLike then HeadingLike
    else if open == "b" then {"div"}
    else if open in {"td", "th"} then {"td", "th"}
    else if open == "colgroup" || open in TableSections then TableSections
    else if open in {"ul", "ol"} then {"ul", "ol"}
    else if open in {"aside", "nav", "form", "header", "footer", "main"} then {open}
    else {}
  }

  /** No raw-text tag is void, so the end tag found for a raw-text element is never ignored. */
  lemma RawTextNotVoid(name: string)
    requires name in RawTextTags
    ensures name !in VoidTags
  {
  }

  /** Whether the text of a raw-text element is kept: only `script`, `style` and `pre` have an option. */
  predicate KeepsRawText(options: Options, tag: string) {
    (tag == "script" && options.script) || (tag == "style" && options.style) || (tag == "pre" && options.pre)
  }

  /** The literal end tag that closes a raw-text element. */
  function CloseMarkup(tag: string): (r: string)
    ensures |r| == |tag| + 3 && StartsWith(r, "</") && EndsWith(r, ">")
  {
    "</" + tag + ">"
  }

  /**
   * Where the raw text of a `tag` element that starts at `from` ends: the
   * first occurrence of its literal end tag, or -1 when there is none.
   */
  function RawTextEnd(data: string, tag: string, from: nat): (r: int)
    ensures r == -1 || (from <= r && r + |tag| + 3 <= |data| && data[r..r + |tag| + 3] == CloseMarkup(tag))
    ensures forall k :: from <= k && (r == -1 || k < r) ==> !OccursAt(data, CloseMarkup(tag), k)
  {
    IndexOf(data, CloseMarkup(tag), from)
  }

  /** The text of a comment: what lies between `<!--` and `-->`. */
  function CommentText(data: string, m: MarkupMatch): (r: string)
    requires m.start + 7 <= m.end <= |data|
    ensures r == data[m.start + 4..m.end - 3]
    ensures |r| == m.end - m.start - 7
  {
    // the arguments come in reversed, which the substring operation swaps back
    Substring(data, m.end - 3, m.start + 4)
  }

  /** The tag name as the scan uses it, lower-cased when the option asks. */
  function TagName(options: Options, name: string): (r: string)
    ensures |r| == |name|
    ensures !options.lowerCaseTagName ==> r == name
  {
    if options.lowerCaseTagName then ToLowerAscii(name) else name
  }

  // ---------------------------------------------------------------------
  // The stack of open elements

  /**
   * The stack of open elements: the root (an element with the empty tag and
   * no parent) at the bottom, then elements with non-empty tags created in
   * increasing order, each the parent of the next.
   */
  predicate Chain(ns: seq<Node>, root: NodeId, stack: seq<NodeId>) {
    |stack| >= 1 && stack[0] == root && root < |ns| &&
    ns[root].Element? && ns[root].tagName == "" && ns[root].parent.None? &&
    (forall i, j | 0 <= i < j < |stack| :: stack[i] < stack[j]) &&
    (forall i | 1 <= i < |stack| ::
       stack[i] < |ns| && ns[stack[i]].Element? && ns[stack[i]].tagName != "" &&
       ns[stack[i]].parent == Some(stack[i - 1]))
  }

  function Top(stack: seq<NodeId>): NodeId
    requires |stack| >= 1
  {
    stack[|stack| - 1]
  }

  lemma ChainEntries(ns: seq<Node>, root: NodeId, stack: seq<NodeId>)
    requires Chain(ns, root, stack)
    ensures forall i | 0 <= i < |stack| :: root <= stack[i] <= Top(stack) < |ns| && ns[stack[i]].Element?
  {
  }

  /** Popping keeps the shape of the stack, as long as the root stays. */
  lemma ChainPrefix(ns: seq<Node>, root: NodeId, stack: seq<NodeId>, h: nat)
    requires Chain(ns, root, stack) && 1 <= h <= |stack|
    ensures Chain(ns, root, stack[..h])
  {
  }

  /** The same kind of node, and for an element the same tag and raw attribute string. */
  predicate SameTag(a: Node, b: Node) {
    a.Element? == b.Element? && (a.Element? ==> b.tagName == a.tagName && b.rawAttrs == a.rawAttrs)
  }

  /** An element and an updated copy agree in everything the stack depends on. */
  predicate SameHead(a: Node, b: Node) {
    SameTag(a, b) && (a.Element? ==> b.parent == a.parent)
  }

  /**
   * `b` is `a` with nodes added at the end and child lists extended at
   * their ends, and every node below `lo` untouched.
   */
  predicate Grows(a: seq<Node>, b: seq<Node>, lo: nat) {
    |a| <= |b| &&
    forall j | 0 <= j < |a| ::
      SameHead(a[j], b[j]) && (j < lo ==> b[j] == a[j]) && (a[j].Element? ==> a[j].childNodes <= b[j].childNodes)
  }

  lemma GrowsTrans(a: seq<Node>, b: seq<Node>, c: seq<Node>, lo: nat)
    requires Grows(a, b, lo) && Grows(b, c, lo)
    ensures Grows(a, c, lo)
  {
  }

  lemma ChainGrows(ns: seq<Node>, ns': seq<Node>, root: NodeId, stack: seq<NodeId>)
    requires Chain(ns, root, stack)
    requires |ns| <= |ns'| && forall i | 0 <= i < |stack| :: SameHead(ns[stack[i]], ns'[stack[i]])
    ensures Chain(ns', root, stack)
  {
    ChainEntries(ns, root, stack);
  }

  /** A new element whose parent is the top of the stack can be pushed. */
  lemma ChainPush(ns: seq<Node>, root: NodeId, stack: seq<NodeId>, e: NodeId)
    requires Chain(ns, root, stack) && Top(stack) < e < |ns|
    requires ns[e].Element? && ns[e].tagName != "" && ns[e].parent == Some(Top(stack))
    ensures Chain(ns, root, stack + [e])
  {
    ChainEntries(ns, root, stack);
  }

  // ---------------------------------------------------------------------
  // The close loop

  /** Every entry names an element of the arena. */
  predicate OpenElements(ns: seq<Node>, stack: seq<NodeId>) {
    forall i | 0 <= i < |stack| :: stack[i] < |ns| && ns[stack[i]].Element?
  }

  /** The tags of the stack entries, bottom first. */
  function TagsOf(ns: seq<Node>, stack: seq<NodeId>): (r: seq<string>)
    requires OpenElements(ns, stack)
    ensures |r| == |stack| && forall i | 0 <= i < |stack| :: r[i] == ns[stack[i]].tagName
  {
    seq(|stack|, i requires 0 <= i < |stack| => ns[stack[i]].tagName)
  }

  /**
   * The height the close loop leaves for an end tag `name` over the open
   * tags `tags`, starting from height `h`: it pops through the first
   * element named `name`, or pops down to the bottom entry when none is.
   */
  function ClosedHeight(tags: seq<string>, name: string, h: nat): (r: nat)
    requires 1 <= h <= |tags|
    ensures r < h || r == h == 1
    ensures tags[0] != name ==> 1 <= r
    decreases h
  {
    if tags[h - 1] == name then h - 1
    else if h > 1 then ClosedHeight(tags, name, h - 1)
    else h
  }

  /** An end tag closes the nearest open element with its name and everything opened inside it. */
  lemma {:induction false} ClosesNearest(tags: seq<string>, name: string, h: nat, j: nat)
    requires j < h <= |tags|
    requires tags[j] == name
    requires forall k | j < k < h :: tags[k] != name
    ensures ClosedHeight(tags, name, h) == j
    decreases h
  {
    if h - 1 != j {
      ClosesNearest(tags, name, h - 1, j);
    }
  }

  /** An end tag that names no open element closes everything but the bottom entry. */
  lemma {:induction false} ClosesToBottom(tags: seq<string>, name: string, h: nat)
    requires 1 <= h <= |tags|
    requires forall k | 0 <= k < h :: tags[k] != name
    ensures ClosedHeight(tags, name, h) == 1
    decreases h
  {
    if h > 1 {
      ClosesToBottom(tags, name, h - 1);
    }
  }

  /**
   * The `while (true)` close loop for an end tag (or a self-closing or void
   * start tag) named `name`: pop until an element with that name has been
   * popped, or until only one entry is left.
   */
  method CloseTo(ns: seq<Node>, stack: seq<NodeId>, name: string) returns (stack': seq<NodeId>)
    requires OpenElements(ns, stack) && |stack| >= 1
    ensures stack' == stack[..ClosedHeight(TagsOf(ns, stack), name, |stack|)]
  {
    ghost var tags := TagsOf(ns, stack);
    stack' := stack;
    while true
      invariant 1 <= |stack'| <= |stack| && stack' == stack[..|stack'|]
      invariant ClosedHeight(tags, name, |stack'|) == ClosedHeight(tags, name, |stack|)
      decreases |stack'|
    {
      if ns[Top(stack')].tagName == name {
        stack' := stack'[..|stack'| - 1];
        break;
      } else if |stack'| > 1 {
        stack' := stack'[..|stack'| - 1];
      } else {
        break;
      }
    }
  }

  // ---------------------------------------------------------------------
  // One piece of markup

  /**
   * `p.appendChild(new TextNode(..))` or `new CommentNode(..)`: a new leaf
   * goes at the end of the arena and at the end of `p`'s child list.
   */
  method AppendLeaf(doc: Document, p: NodeId, leaf: Node) returns (t: NodeId)
    requires doc.Valid() && Ordered(doc.nodes) && p < |doc.nodes| && doc.nodes[p].Element? && !leaf.Element?
    modifies doc
    ensures doc.Valid() && Ordered(doc.nodes) && t == old(|doc.nodes|)
    ensures doc.nodes == old(doc.nodes)[p := old(doc.nodes[p]).(childNodes := old(doc.nodes[p].childNodes) + [t])] + [leaf]
  {
    ghost var before := doc.nodes;
    if leaf.Text? {
      t := doc.NewText(leaf.value);
    } else {
      t := doc.NewComment(leaf.value);
    }
    doc.AppendChild(p, t);
    assert doc.nodes == (before + [leaf])[p := before[p].(childNodes := before[p].childNodes + [t])];
  }

  /** Appending a leaf below the stack's elements leaves the stack's shape alone. */
  lemma LeafGrows(ns: seq<Node>, p: NodeId, t: NodeId, leaf: Node, lo: nat)
    requires p < |ns| && ns[p].Element? && lo <= p
    ensures Grows(ns, ns[p := ns[p].(childNodes := ns[p].childNodes + [t])] + [leaf], lo)
  {
  }

  /**
   * The stack height once the implicit closing of the start tag `name` is
   * applied: the open element is popped when the table lists `name` for it,
   * unless the tag closes itself with `/>`.
   */
  function ImplicitHeight(tags: seq<string>, name: string, selfClosing: bool): (h: nat)
    requires |tags| >= 1
    ensures h == |tags| || h == |tags| - 1
    ensures tags[0] == "" ==> 1 <= h
  {
    if !selfClosing && name in ClosedByOpening(tags[|tags| - 1]) then |tags| - 1 else |tags|
  }

  /** The text of a raw-text element `name` whose start tag ends at `pos`. */
  function RawText(data: string, name: string, pos: nat): (r: string)
    requires pos <= |data|
    ensures var e := RawTextEnd(data, name, pos); r == if e == -1 then data[pos..] else data[pos..e]
  {
    var e := RawTextEnd(data, name, pos);
    if e == -1 then data[pos..] else data[pos..e]
  }

  /**
   * Where the scan resumes after the start tag `name` that ends at `pos`:
   * right there, or past the raw-text element's end tag, or past the end of
   * the input when that end tag is missing.
   */
  function ResumeAt(data: string, name: string, pos: nat): (r: nat)
    requires pos <= |data|
    ensures name !in RawTextTags ==> r == pos
    ensures name in RawTextTags ==> pos < r <= |data| + 1
  {
    if name !in RawTextTags then pos
    else
      var e := RawTextEnd(data, name, pos);
      if e == -1 then |data| + 1 else e + |CloseMarkup(name)|
  }

  /**
   * `b` has, past the end of `a`, a new element named `name` with the
   * trimmed attribute string, appended last to the stack entry at height
   * `h`, which is its parent.
   */
  predicate Opened(a: seq<Node>, b: seq<Node>, stack: seq<NodeId>, h: nat, name: string, attrs: string) {
    var e := |a|;
    1 <= h <= |stack| && e < |b| && stack[h - 1] < e &&
    b[e].Element? && b[e].tagName == name && b[e].rawAttrs == Trim(attrs) && b[e].parent == Some(stack[h - 1]) &&
    a[stack[h - 1]].Element? && b[stack[h - 1]].Element? &&
    b[stack[h - 1]].childNodes == a[stack[h - 1]].childNodes + [e]
  }

  /** Later changes to other nodes' child lists, and to the new element's own, keep what `Opened` says. */
  lemma OpenedKept(a: seq<Node>, b: seq<Node>, c: seq<Node>, stack: seq<NodeId>, h: nat, name: string, attrs: string)
    requires Opened(a, b, stack, h, name, attrs) && |b| <= |c|
    requires forall j | 0 <= j < |b| && j != |a| :: c[j] == b[j]
    requires |a| < |c| && c[|a|].Element? && c[|a|] == b[|a|].(childNodes := c[|a|].childNodes)
    ensures Opened(a, c, stack, h, name, attrs)
  {
  }

  /**
   * The implicit close of a start tag `name`: the open element is popped
   * when the table lists `name` for its tag, unless the tag ends in `/>`.
   */
  method ImplicitClose(ns: seq<Node>, ghost root: NodeId, stack: seq<NodeId>, name: string, selfClosing: bool)
    returns (stack': seq<NodeId>)
    requires Chain(ns, root, stack)
    ensures Chain(ns, root, stack') && stack' == stack[..ImplicitHeight(TagsOf(ns, stack), name, selfClosing)]
  {
    ChainEntries(ns, root, stack);
    stack' := stack;
    if !selfClosing && name in ClosedByOpening(ns[Top(stack')].tagName) {
      stack' := stack'[..|stack'| - 1];
    }
    ChainPrefix(ns, root, stack, |stack'|);
  }

  /** The element of a start tag: appended to the open element and pushed. */
  method PushElement(doc: Document, ghost root: NodeId, stack: seq<NodeId>, name: string, attrs: string)
    returns (stack': seq<NodeId>)
    requires doc.Valid() && Ordered(doc.nodes) && Chain(doc.nodes, root, stack) && name != ""
    modifies doc
    ensures doc.Valid() && Ordered(doc.nodes) && Grows(old(doc.nodes), doc.nodes, root)
    ensures Chain(doc.nodes, root, stack') && |doc.nodes| == old(|doc.nodes|) + 1
    ensures Opened(old(doc.nodes), doc.nodes, stack, |stack|, name, attrs) && stack' == stack + [old(|doc.nodes|)]
    ensures doc.nodes[old(|doc.nodes|)].childNodes == []
  {
    ChainEntries(doc.nodes, root, stack);
    ghost var before := doc.nodes;
    var e := doc.NewElement(name, Trim(attrs), None);
    ghost var grown := doc.nodes;
    assert grown[..|before|] == before;
    doc.AppendChild(Top(stack), e);
    PushFacts(before, doc.nodes, root, stack, grown, name, attrs);
    stack' := stack + [e];
  }

  /** What appending a new element to the open element and pushing it does to the arena and the stack. */
  lemma PushFacts(ns: seq<Node>, ns': seq<Node>, root: NodeId, stack: seq<NodeId>, grown: seq<Node>, name: string, attrs: string)
    requires Chain(ns, root, stack) && |grown| == |ns| + 1 && grown[..|ns|] == ns
    requires grown[|ns|].Element? && grown[|ns|].tagName == name != "" && grown[|ns|].parent.None?
    requires grown[|ns|].rawAttrs == Trim(attrs)
    requires ns' == WithParent(WithChildren(grown, Top(stack), ns[Top(stack)].childNodes + [|ns|]), |ns|, Some(Top(stack)))
    ensures Grows(ns, ns', root) && Chain(ns', root, stack + [|ns|]) && |ns'| == |ns| + 1
    ensures Opened(ns, ns', stack, |stack|, name, attrs)
    ensures ns'[|ns|] == grown[|ns|].(parent := Some(Top(stack)))
    ensures ns'[Top(stack)].childNodes == ns[Top(stack)].childNodes + [|ns|]
  {
    ChainEntries(ns, root, stack);
    assert forall j | 0 <= j < |ns| :: grown[j] == ns[j] by {
      forall j | 0 <= j < |ns| ensures grown[j] == ns[j] {
        assert grown[..|ns|][j] == grown[j];
      }
    }
    ChainGrows(ns, ns', root, stack);
    ChainPush(ns', root, stack, |ns|);
  }

  /**
   * The raw text of a just-opened raw-text element `e` whose start tag ends
   * at `pos`: kept as its one text child when its option says so and it is
   * not empty; the scan then resumes past the literal end tag, which counts
   * as seen (`closing`), or past the input when there is none.
   */
  method TakeRawText(doc: Document, ghost root: NodeId, stack: seq<NodeId>, data: string, options: Options,
                     pos: nat, name: string)
    returns (pos': nat, closing: bool)
    requires doc.Valid() && Ordered(doc.nodes) && Chain(doc.nodes, root, stack) && pos <= |data|
    requires Top(stack) + 1 == |doc.nodes| && doc.nodes[Top(stack)].childNodes == []
    modifies doc
    ensures doc.Valid() && Ordered(doc.nodes) && Grows(old(doc.nodes), doc.nodes, root)
    ensures Chain(doc.nodes, root, stack)
    ensures forall j | 0 <= j < old(|doc.nodes|) && j != Top(stack) :: doc.nodes[j] == old(doc.nodes[j])
    ensures doc.nodes[Top(stack)] == old(doc.nodes[Top(stack)]).(childNodes := doc.nodes[Top(stack)].childNodes)
    ensures var e := Top(stack);
            var kept := name in RawTextTags && KeepsRawText(options, name) && RawText(data, name, pos) != "";
            doc.nodes[e].childNodes == (if kept then [e + 1] else []) &&
            (kept ==> e + 1 < |doc.nodes| && doc.nodes[e + 1] == Text(RawText(data, name, pos)))
    ensures closing <==> name in RawTextTags && RawTextEnd(data, name, pos) != -1
    ensures pos' == ResumeAt(data, name, pos)
  {
    ChainEntries(doc.nodes, root, stack);
    pos' := pos;
    closing := false;
    if name in RawTextTags {
      var index := RawTextEnd(data, name, pos);
      if KeepsRawText(options, name) {
        var text := if index == -1 then data[pos..] else data[pos..index];
        if |text| > 0 {
          ghost var before := doc.nodes;
          var _ := AppendLeaf(doc, Top(stack), Text(text));
          LeafGrows(before, Top(stack), Top(stack) + 1, Text(text), root);
          ChainGrows(before, doc.nodes, root, stack);
        }
      }
      if index == -1 {
        pos' := |data| + 1;
      } else {
        pos' := index + |CloseMarkup(name)|;
        closing := true;
      }
    }
  }

  /**
   * An end tag: ignored for a void element, otherwise the close loop. The
   * tree is not touched either way.
   */
  method EndTag(ns: seq<Node>, ghost root: NodeId, stack: seq<NodeId>, name: string) returns (stack': seq<NodeId>)
    requires Chain(ns, root, stack) && name != ""
    ensures Chain(ns, root, stack')
    ensures name in VoidTags ==> stack' == stack
    ensures name !in VoidTags ==> stack' == stack[..ClosedHeight(TagsOf(ns, stack), name, |stack|)]
  {
    ChainEntries(ns, root, stack);
    stack' := stack;
    if !(name in VoidTags) {
      stack' := CloseTo(ns, stack, name);
      ChainPrefix(ns, root, stack, |stack'|);
    }
  }

  /**
   * The close that follows a start tag when it is self-closing or void, or
   * when it opened a raw-text element whose end tag was found: the close
   * loop pops the element just pushed. An ignored void end tag cannot
   * arise here, since raw-text tags are not void.
   */
  method CloseAfterStart(ns: seq<Node>, ghost root: NodeId, pushed: seq<NodeId>, name: string, closing: bool, selfClosing: bool)
    returns (stack': seq<NodeId>)
    requires Chain(ns, root, pushed) && |pushed| >= 2 && ns[Top(pushed)].tagName == name
    requires closing ==> name !in VoidTags
    ensures Chain(ns, root, stack')
    ensures stack' == if closing || selfClosing || name in VoidTags then pushed[..|pushed| - 1] else pushed
  {
    stack' := pushed;
    if closing || selfClosing || name in VoidTags {
      if !(closing && name in VoidTags) {
        ChainEntries(ns, root, pushed);
        stack' := CloseTo(ns, pushed, name);
        ClosesNearest(TagsOf(ns, pushed), name, |pushed|, |pushed| - 1);
        ChainPrefix(ns, root, pushed, |stack'|);
      }
    }
  }

  /**
   * A start tag: its element is created, appended to the open element
   * (after the implicit close) and pushed; a raw-text element takes its
   * text; then a self-closing, void or raw-text-with-end-tag element is
   * closed again at once.
   */
  method StartTag(doc: Document, ghost root: NodeId, stack: seq<NodeId>, data: string, options: Options,
                  pos: nat, name: string, attrs: string, selfClosing: bool)
    returns (stack': seq<NodeId>, pos': nat)
    requires doc.Valid() && Ordered(doc.nodes) && Chain(doc.nodes, root, stack) && pos <= |data| && name != ""
    modifies doc
    ensures doc.Valid() && Ordered(doc.nodes) && Grows(old(doc.nodes), doc.nodes, root)
    ensures Chain(doc.nodes, root, stack')
    ensures pos' == ResumeAt(data, name, pos)
    ensures var h := ImplicitHeight(TagsOf(old(doc.nodes), stack), name, selfClosing);
            Opened(old(doc.nodes), doc.nodes, stack, h, name, attrs) &&
            stack' == if selfClosing || name in VoidTags || (name in RawTextTags && RawTextEnd(data, name, pos) != -1)
                      then stack[..h] else stack[..h] + [old(|doc.nodes|)]
  {
    ChainEntries(doc.nodes, root, stack);
    ghost var h := ImplicitHeight(TagsOf(doc.nodes, stack), name, selfClosing);
    ghost var before := doc.nodes;
    var open := ImplicitClose(doc.nodes, root, stack, name, selfClosing);
    var pushed := PushElement(doc, root, open, name, attrs);
    assert Opened(before, doc.nodes, stack, h, name, attrs);
    ghost var mid := doc.nodes;
    var closing;
    pos', closing := TakeRawText(doc, root, pushed, data, options, pos, name);
    GrowsTrans(before, mid, doc.nodes, root);
    OpenedKept(before, mid, doc.nodes, stack, h, name, attrs);
    assert pushed[..|pushed| - 1] == stack[..h];
    if closing {
      RawTextNotVoid(name);
    }
    stack' := CloseAfterStart(doc.nodes, root, pushed, name, closing, selfClosing);
  }

  // ---------------------------------------------------------------------
  // The outline a scan builds

  /**
   * What the scan does to elements, as values: `tags[k]` and `parents[k]`
   * are the tag and the parent (an index into the same lists) of the k-th
   * element created, the root first, and `open` lists the open ones,
   * bottom first.
   */
  datatype Outline = Outline(tags: seq<string>, parents: seq<nat>, open: seq<nat>)

  /** The root has the empty tag and sits at the bottom of `open`; a parent was created before its child. */
  predicate OutlineOk(o: Outline) {
    |o.tags| == |o.parents| >= 1 && o.tags[0] == "" &&
    (forall k | 1 <= k < |o.parents| :: o.parents[k] < k) &&
    |o.open| >= 1 && o.open[0] == 0 && (forall i | 0 <= i < |o.open| :: o.open[i] < |o.tags|)
  }

  /** Before the scan: the root alone, open. */
  const RootOutline: Outline := Outline([""], [0], [0])

  /** The tags of the open elements, bottom first. */
  function OpenTags(o: Outline): (r: seq<string>)
    requires OutlineOk(o)
    ensures |r| == |o.open| && r[0] == ""
    ensures forall i | 0 <= i < |r| :: r[i] == o.tags[o.open[i]]
  {
    seq(|o.open|, i requires 0 <= i < |o.open| => o.tags[o.open[i]])
  }

  /**
   * What one match does to the outline, and where the scan resumes: a
   * comment changes nothing; an end tag is ignored when void and otherwise
   * closes as the close loop does; a start tag applies the implicit close,
   * creates its element under the open one, and leaves it open unless it
   * is self-closing, void, or raw text whose end tag is found.
   */
  function OutlineStep(data: string, options: Options, m: MarkupMatch, o: Outline): (r: (Outline, nat))
    requires FoundFrom(m, 0, |data|) && OutlineOk(o)
    ensures OutlineOk(r.0) && m.end <= r.1 <= |data| + 1
    ensures |o.tags| <= |r.0.tags| <= |o.tags| + 1
    ensures r.0.tags[..|o.tags|] == o.tags && r.0.parents[..|o.parents|] == o.parents
    ensures m.markup.Tag? && !m.markup.closing <==> |r.0.tags| == |o.tags| + 1
  {
    match m.markup
    case CommentMarkup => (o, m.end)
    case Tag(closing, rawName, _, selfClosing) =>
      var name := TagName(options, rawName);
      var tags := OpenTags(o);
      if closing then
        (if name in VoidTags then o else o.(open := o.open[..ClosedHeight(tags, name, |tags|)]), m.end)
      else
        var h := ImplicitHeight(tags, name, selfClosing);
        var shut := selfClosing || name in VoidTags || (name in RawTextTags && RawTextEnd(data, name, m.end) != -1);
        var k := |o.tags|;
        (Outline(o.tags + [name], o.parents + [o.open[h - 1]], o.open[..h] + (if shut then [] else [k])),
         ResumeAt(data, name, m.end))
  }

  /**
   * The outline once the scan has run on from `pos`: the matches are
   * applied in turn until there is none or the position has run past the
   * input. Elements are only ever added.
   */
  function ScanOutline(data: string, options: Options, scan: Scanner, pos: nat, o: Outline): (r: Outline)
    requires ScannerSound(scan, data) && OutlineOk(o)
    ensures OutlineOk(r) && |o.tags| <= |r.tags|
    ensures r.tags[..|o.tags|] == o.tags && r.parents[..|o.parents|] == o.parents
    decreases |data| + 1 - pos
  {
    if pos > |data| then o
    else match scan(data, pos)
      case None => o
      case Some(m) =>
        var next := OutlineStep(data, options, m, o);
        ScanOutline(data, options, scan, next.1, next.0)
  }

  /** The outline of `parse(data)` before the repair. */
  function ParseOutline(data: string, options: Options, scan: Scanner): (r: Outline)
    requires ScannerSound(scan, data)
    ensures OutlineOk(r) && r.tags[0] == ""
  {
    ScanOutline(data, options, scan, 0, RootOutline)
  }

  /**
   * The arena follows the outline: `ids[k]` is the element created k-th,
   * with the outline's tag and parent, and the stack holds the open ones.
   */
  predicate Tracks(ns: seq<Node>, ids: seq<NodeId>, o: Outline, stack: seq<NodeId>) {
    OutlineOk(o) && |ids| == |o.tags| &&
    (forall k | 0 <= k < |ids| :: ids[k] < |ns| && ns[ids[k]].Element? && ns[ids[k]].tagName == o.tags[k]) &&
    (forall k | 1 <= k < |ids| :: ns[ids[k]].parent == Some(ids[o.parents[k]])) &&
    |stack| == |o.open| && (forall i | 0 <= i < |stack| :: stack[i] == ids[o.open[i]])
  }

  /** The repair keeps every tracked element's tag. */
  lemma TracksRepaired(ns: seq<Node>, ns': seq<Node>, lo: nat, ids: seq<NodeId>, o: Outline, stack: seq<NodeId>)
    requires Tracks(ns, ids, o, stack) && Repaired(ns, ns', lo)
    ensures forall k | 0 <= k < |ids| :: ids[k] < |ns'| && ns'[ids[k]].Element? && ns'[ids[k]].tagName == o.tags[k]
  {
    forall k | 0 <= k < |ids|
      ensures SameTag(ns[ids[k]], ns'[ids[k]])
    {
    }
  }

  /** The tags the stack holds are the outline's open tags. */
  lemma TracksTags(ns: seq<Node>, ids: seq<NodeId>, o: Outline, stack: seq<NodeId>)
    requires Tracks(ns, ids, o, stack)
    ensures OpenElements(ns, stack) && TagsOf(ns, stack) == OpenTags(o)
  {
  }

  /** Adding nodes and changing child lists keeps the arena following the outline. */
  lemma TracksGrows(ns: seq<Node>, ns': seq<Node>, lo: nat, ids: seq<NodeId>, o: Outline, stack: seq<NodeId>)
    requires Tracks(ns, ids, o, stack) && Grows(ns, ns', lo)
    ensures Tracks(ns', ids, o, stack)
  {
    forall k | 0 <= k < |ids|
      ensures SameHead(ns[ids[k]], ns'[ids[k]])
    {
    }
  }

  /** Popping the stack to height `h` follows popping the outline's open list. */
  lemma TracksPop(ns: seq<Node>, ids: seq<NodeId>, o: Outline, stack: seq<NodeId>, h: nat)
    requires Tracks(ns, ids, o, stack) && 1 <= h <= |stack|
    ensures Tracks(ns, ids, o.(open := o.open[..h]), stack[..h])
  {
  }

  /**
   * A new element opened at height `h` follows the outline's new entry,
   * whether it stays open or is closed again at once.
   */
  lemma TracksOpen(ns: seq<Node>, ns': seq<Node>, lo: nat, ids: seq<NodeId>, o: Outline, stack: seq<NodeId>,
                   h: nat, name: string, attrs: string, shut: bool)
    requires Tracks(ns, ids, o, stack) && Grows(ns, ns', lo) && Opened(ns, ns', stack, h, name, attrs)
    ensures var o' := Outline(o.tags + [name], o.parents + [o.open[h - 1]], o.open[..h] + (if shut then [] else [|o.tags|]));
            Tracks(ns', ids + [|ns|], o', if shut then stack[..h] else stack[..h] + [|ns|])
  {
    TracksGrows(ns, ns', lo, ids, o, stack);
  }

  /**
   * What one piece of markup does to the stack, the arena `a` (becoming
   * `b`) and the position: a comment leaves the stack alone; an end tag is
   * ignored when void and otherwise runs the close loop; a start tag opens
   * its element under the entry left by the implicit close, and leaves it
   * pushed unless it is self-closing, void, or raw text whose end tag is
   * found.
   */
  predicate MarkupDone(a: seq<Node>, b: seq<Node>, stack: seq<NodeId>, stack': seq<NodeId>, data: string, options: Options,
                       m: MarkupMatch, pos': nat)
    requires OpenElements(a, stack) && |stack| >= 1 && m.end <= |data|
  {
    match m.markup
    case CommentMarkup => stack' == stack && pos' == m.end
    case Tag(closing, rawName, attrs, selfClosing) =>
      var name := TagName(options, rawName);
      if closing then
        pos' == m.end && stack' == if name in VoidTags then stack else stack[..ClosedHeight(TagsOf(a, stack), name, |stack|)]
      else
        var h := ImplicitHeight(TagsOf(a, stack), name, selfClosing);
        Opened(a, b, stack, h, name, attrs) && pos' == ResumeAt(data, name, m.end) &&
        stack' == if selfClosing || name in VoidTags || (name in RawTextTags && RawTextEnd(data, name, m.end) != -1)
                  then stack[..h] else stack[..h] + [|a|]
  }

  /** One piece of markup as `MarkupStep` handles it follows the outline's step. */
  lemma TracksMarkup(a: seq<Node>, b: seq<Node>, lo: nat, ids: seq<NodeId>, ids': seq<NodeId>, o: Outline,
                     stack: seq<NodeId>, stack': seq<NodeId>, data: string, options: Options, m: MarkupMatch, pos': nat)
    requires FoundFrom(m, 0, |data|) && Tracks(a, ids, o, stack) && Grows(a, b, lo)
    requires m.markup.Tag? && m.markup.closing ==> b == a
    requires OpenElements(a, stack) && MarkupDone(a, b, stack, stack', data, options, m, pos')
    requires ids' == if m.markup.Tag? && !m.markup.closing then ids + [|a|] else ids
    ensures Tracks(b, ids', OutlineStep(data, options, m, o).0, stack') && pos' == OutlineStep(data, options, m, o).1
  {
    if m.markup.CommentMarkup? {
      TracksComment(a, b, lo, ids, o, stack, data, options, m);
    } else if m.markup.closing {
      TracksEndTag(a, ids, o, stack, stack', data, options, m);
    } else {
      var name := TagName(options, m.markup.name);
      var shut := m.markup.selfClosing || name in VoidTags || (name in RawTextTags && RawTextEnd(data, name, m.end) != -1);
      TracksStartTag(a, b, lo, ids, o, stack, stack', data, options, m, pos', name,
                     ImplicitHeight(TagsOf(a, stack), name, m.markup.selfClosing), shut);
    }
  }

  /** The outline's step for a start tag, written out. */
  lemma OutlineStart(data: string, options: Options, m: MarkupMatch, o: Outline, name: string, h: nat, shut: bool)
    requires FoundFrom(m, 0, |data|) && m.markup.Tag? && !m.markup.closing && OutlineOk(o)
    requires name == TagName(options, m.markup.name) && h == ImplicitHeight(OpenTags(o), name, m.markup.selfClosing)
    requires shut == (m.markup.selfClosing || name in VoidTags || (name in RawTextTags && RawTextEnd(data, name, m.end) != -1))
    ensures 1 <= h <= |o.open|
    ensures OutlineStep(data, options, m, o).0 ==
              Outline(o.tags + [name], o.parents + [o.open[h - 1]], o.open[..h] + (if shut then [] else [|o.tags|]))
    ensures OutlineStep(data, options, m, o).1 == ResumeAt(data, name, m.end)
  {
  }

  /** The text before a match, then its markup, follow the outline's step. */
  lemma TracksScanStep(a: seq<Node>, mid: seq<Node>, b: seq<Node>, lo: nat, ids: seq<NodeId>, ids': seq<NodeId>, o: Outline,
                       stack: seq<NodeId>, stack': seq<NodeId>, data: string, options: Options, m: MarkupMatch, pos': nat)
    requires FoundFrom(m, 0, |data|) && Tracks(a, ids, o, stack) && Grows(a, mid, lo) && Grows(mid, b, lo)
    requires m.markup.Tag? && m.markup.closing ==> b == mid
    requires OpenElements(mid, stack) && MarkupDone(mid, b, stack, stack', data, options, m, pos')
    requires ids' == if m.markup.Tag? && !m.markup.closing then ids + [|mid|] else ids
    ensures Tracks(b, ids', OutlineStep(data, options, m, o).0, stack') && pos' == OutlineStep(data, options, m, o).1
  {
    TracksGrows(a, mid, lo, ids, o, stack);
    TracksMarkup(mid, b, lo, ids, ids', o, stack, stack', data, options, m, pos');
  }

  /** A start tag as `StartTag` handles it follows the outline's step. */
  lemma TracksStartTag(ns: seq<Node>, ns': seq<Node>, lo: nat, ids: seq<NodeId>, o: Outline, stack: seq<NodeId>,
                       stack': seq<NodeId>, data: string, options: Options, m: MarkupMatch, pos': nat,
                       name: string, h: nat, shut: bool)
    requires FoundFrom(m, 0, |data|) && m.markup.Tag? && !m.markup.closing
    requires Tracks(ns, ids, o, stack) && Grows(ns, ns', lo)
    requires name == TagName(options, m.markup.name) && h == ImplicitHeight(TagsOf(ns, stack), name, m.markup.selfClosing)
    requires shut == (m.markup.selfClosing || name in VoidTags || (name in RawTextTags && RawTextEnd(data, name, m.end) != -1))
    requires Opened(ns, ns', stack, h, name, m.markup.attrs) && pos' == ResumeAt(data, name, m.end)
    requires stack' == if shut then stack[..h] else stack[..h] + [|ns|]
    ensures Tracks(ns', ids + [|ns|], OutlineStep(data, options, m, o).0, stack') && pos' == OutlineStep(data, options, m, o).1
  {
    TracksTags(ns, ids, o, stack);
    TracksOpen(ns, ns', lo, ids, o, stack, h, name, m.markup.attrs, shut);
    OutlineStart(data, options, m, o, name, h, shut);
    var o' := Outline(o.tags + [name], o.parents + [o.open[h - 1]], o.open[..h] + (if shut then [] else [|o.tags|]));
    TracksSame(ns', ids + [|ns|], o', OutlineStep(data, options, m, o).0, stack', stack');
  }

  /** Equal outlines and stacks are tracked alike. */
  lemma TracksSame(ns: seq<Node>, ids: seq<NodeId>, o: Outline, o': Outline, stack: seq<NodeId>, stack': seq<NodeId>)
    requires Tracks(ns, ids, o, stack) && o' == o && stack' == stack
    ensures Tracks(ns, ids, o', stack')
  {
  }

  /** A comment, kept or not, follows the outline's step. */
  lemma TracksComment(ns: seq<Node>, ns': seq<Node>, lo: nat, ids: seq<NodeId>, o: Outline, stack: seq<NodeId>,
                      data: string, options: Options, m: MarkupMatch)
    requires FoundFrom(m, 0, |data|) && m.markup.CommentMarkup?
    requires Tracks(ns, ids, o, stack) && Grows(ns, ns', lo)
    ensures Tracks(ns', ids, OutlineStep(data, options, m, o).0, stack) && m.end == OutlineStep(data, options, m, o).1
  {
    TracksGrows(ns, ns', lo, ids, o, stack);
  }

  /** An end tag as `EndTag` handles it follows the outline's step. */
  lemma TracksEndTag(ns: seq<Node>, ids: seq<NodeId>, o: Outline, stack: seq<NodeId>, stack': seq<NodeId>,
                     data: string, options: Options, m: MarkupMatch)
    requires FoundFrom(m, 0, |data|) && m.markup.Tag? && m.markup.closing
    requires Tracks(ns, ids, o, stack)
    requires var name := TagName(options, m.markup.name);
             (name in VoidTags ==> stack' == stack) &&
             (name !in VoidTags ==> stack' == stack[..ClosedHeight(TagsOf(ns, stack), name, |stack|)])
    ensures Tracks(ns, ids, OutlineStep(data, options, m, o).0, stack') && m.end == OutlineStep(data, options, m, o).1
  {
    var name := TagName(options, m.markup.name);
    TracksTags(ns, ids, o, stack);
    if name !in VoidTags {
      TracksPop(ns, ids, o, stack, |stack'|);
    }
  }

  /**
   * The elements `ids` lists were created at or after `lo`, and each one
   * after the first sits in the child list of the element `parents` names
   * for it.
   */
  predicate Nested(ns: seq<Node>, ids: seq<NodeId>, parents: seq<nat>, lo: nat) {
    |ids| == |parents| && (forall k | 1 <= k < |ids| :: parents[k] < k) &&
    (forall k | 0 <= k < |ids| :: lo <= ids[k] < |ns| && ns[ids[k]].Element?) &&
    forall k | 1 <= k < |ids| :: ids[k] in ns[ids[parents[k]]].childNodes
  }

  lemma InPrefix(c: NodeId, s: seq<NodeId>, t: seq<NodeId>)
    requires c in s && s <= t
    ensures c in t
  {
    var i :| 0 <= i < |s| && s[i] == c;
    assert t[i] == c;
  }

  /** Child lists that only grow at their ends keep every element where it was listed. */
  lemma NestedGrows(ns: seq<Node>, ns': seq<Node>, lo: nat, ids: seq<NodeId>, parents: seq<nat>, lo': nat)
    requires Nested(ns, ids, parents, lo) && Grows(ns, ns', lo')
    ensures Nested(ns', ids, parents, lo)
  {
    forall k | 1 <= k < |ids|
      ensures ids[k] in ns'[ids[parents[k]]].childNodes
    {
      InPrefix(ids[k], ns[ids[parents[k]]].childNodes, ns'[ids[parents[k]]].childNodes);
    }
  }

  /** A new element opened at height `h` is listed under the stack entry it was appended to. */
  lemma NestedOpen(ns: seq<Node>, ns': seq<Node>, lo: nat, ids: seq<NodeId>, o: Outline, stack: seq<NodeId>,
                   h: nat, name: string, attrs: string)
    requires Tracks(ns, ids, o, stack) && Nested(ns, ids, o.parents, lo) && lo <= |ns|
    requires Grows(ns, ns', lo) && Opened(ns, ns', stack, h, name, attrs)
    ensures Nested(ns', ids + [|ns|], o.parents + [o.open[h - 1]], lo)
  {
    NestedGrows(ns, ns', lo, ids, o.parents, lo);
    var ids' := ids + [|ns|];
    var parents' := o.parents + [o.open[h - 1]];
    assert ids'[parents'[|ids|]] == stack[h - 1];
    forall k | 1 <= k < |ids'|
      ensures ids'[k] in ns'[ids'[parents'[k]]].childNodes
    {
      if k < |ids| {
        assert ids'[k] == ids[k] && ids'[parents'[k]] == ids[o.parents[k]];
      }
    }
  }

  /** The text before a match, then its markup, keep every created element listed under its parent. */
  lemma NestedScanStep(a: seq<Node>, mid: seq<Node>, b: seq<Node>, lo: nat, ids: seq<NodeId>, ids': seq<NodeId>, o: Outline,
                       stack: seq<NodeId>, stack': seq<NodeId>, data: string, options: Options, m: MarkupMatch, pos': nat)
    requires FoundFrom(m, 0, |data|) && Tracks(a, ids, o, stack) && Nested(a, ids, o.parents, lo) && lo <= |a|
    requires Grows(a, mid, lo) && Grows(mid, b, lo)
    requires OpenElements(mid, stack) && MarkupDone(mid, b, stack, stack', data, options, m, pos')
    requires ids' == if m.markup.Tag? && !m.markup.closing then ids + [|mid|] else ids
    ensures Nested(b, ids', OutlineStep(data, options, m, o).0.parents, lo)
  {
    NestedGrows(a, mid, lo, ids, o.parents, lo);
    TracksGrows(a, mid, lo, ids, o, stack);
    if m.markup.Tag? && !m.markup.closing {
      var name := TagName(options, m.markup.name);
      var h := ImplicitHeight(TagsOf(mid, stack), name, m.markup.selfClosing);
      var shut := m.markup.selfClosing || name in VoidTags || (name in RawTextTags && RawTextEnd(data, name, m.end) != -1);
      TracksTags(mid, ids, o, stack);
      OutlineStart(data, options, m, o, name, h, shut);
      NestedOpen(mid, b, lo, ids, o, stack, h, name, m.markup.attrs);
    } else {
      NestedGrows(mid, b, lo, ids, o.parents, lo);
    }
  }

  /** `currentParent.appendChild(..)` of a new text or comment node. */
  method AddLeaf(doc: Document, ghost root: NodeId, stack: seq<NodeId>, leaf: Node)
    requires doc.Valid() && Ordered(doc.nodes) && Chain(doc.nodes, root, stack) && !leaf.Element?
    modifies doc
    ensures doc.Valid() && Ordered(doc.nodes) && Grows(old(doc.nodes), doc.nodes, root)
    ensures Chain(doc.nodes, root, stack)
    ensures doc.nodes == old(doc.nodes)[Top(stack) := old(doc.nodes[Top(stack)]).(childNodes := old(doc.nodes[Top(stack)].childNodes) + [old(|doc.nodes|)])] + [leaf]
  {
    ChainEntries(doc.nodes, root, stack);
    ghost var before := doc.nodes;
    var t := AppendLeaf(doc, Top(stack), leaf);
    LeafGrows(before, Top(stack), t, leaf, root);
    ChainGrows(before, doc.nodes, root, stack);
  }

  /**
   * One match of the scan: the text since the last match goes to the open
   * element, then the comment (kept when the option says so) or the tag.
   */
  method ScanStep(doc: Document, ghost root: NodeId, stack: seq<NodeId>, data: string, options: Options,
                  pos: nat, m: MarkupMatch)
    returns (stack': seq<NodeId>, pos': nat, ghost mid: seq<Node>)
    requires doc.Valid() && Ordered(doc.nodes) && Chain(doc.nodes, root, stack) && FoundFrom(m, pos, |data|)
    modifies doc
    ensures doc.Valid() && Ordered(doc.nodes) && Grows(old(doc.nodes), doc.nodes, root)
    ensures Chain(doc.nodes, root, stack')
    ensures m.end <= pos' <= |data| + 1
    ensures mid == if pos < m.start
                   then old(doc.nodes)[Top(stack) := old(doc.nodes[Top(stack)]).(childNodes := old(doc.nodes[Top(stack)].childNodes) + [old(|doc.nodes|)])] + [Text(data[pos..m.start])]
                   else old(doc.nodes)
    ensures Grows(old(doc.nodes), mid, root) && Grows(mid, doc.nodes, root)
    ensures OpenElements(mid, stack) && MarkupDone(mid, doc.nodes, stack, stack', data, options, m, pos')
    ensures m.markup.Tag? && m.markup.closing ==> doc.nodes == mid
  {
    ChainEntries(doc.nodes, root, stack);
    stack' := stack;
    pos' := pos;
    if pos' < m.start {
      AddLeaf(doc, root, stack', Text(data[pos'..m.start]));
    }
    mid := doc.nodes;
    stack', pos' := MarkupStep(doc, root, stack', data, options, m);
    GrowsTrans(old(doc.nodes), mid, doc.nodes, root);
  }

  /** The markup of one match: a comment (kept when the option says so), a start tag or an end tag. */
  method MarkupStep(doc: Document, ghost root: NodeId, stack: seq<NodeId>, data: string, options: Options, m: MarkupMatch)
    returns (stack': seq<NodeId>, pos': nat)
    requires doc.Valid() && Ordered(doc.nodes) && Chain(doc.nodes, root, stack) && FoundFrom(m, 0, |data|)
    modifies doc
    ensures doc.Valid() && Ordered(doc.nodes) && Grows(old(doc.nodes), doc.nodes, root)
    ensures Chain(doc.nodes, root, stack')
    ensures m.end <= pos' <= |data| + 1
    ensures OpenElements(old(doc.nodes), stack) && MarkupDone(old(doc.nodes), doc.nodes, stack, stack', data, options, m, pos')
    ensures m.markup.Tag? && m.markup.closing ==> doc.nodes == old(doc.nodes)
  {
    ChainEntries(doc.nodes, root, stack);
    stack' := stack;
    pos' := m.end;
    match m.markup {
      case CommentMarkup =>
        if options.comment {
          AddLeaf(doc, root, stack', Comment(CommentText(data, m)));
        }
      case Tag(closing, rawName, attrs, selfClosing) =>
        var name := TagName(options, rawName);
        if !closing {
          stack', pos' := StartTag(doc, root, stack', data, options, pos', name, attrs, selfClosing);
        } else {
          stack' := EndTag(doc.nodes, root, stack', name);
        }
    }
  }

  /** A step of the scan follows the outline's step for the same match. */
  method TrackedStep(doc: Document, ghost root: NodeId, stack: seq<NodeId>, data: string, options: Options,
                     pos: nat, m: MarkupMatch, ghost ids: seq<NodeId>, ghost o: Outline)
    returns (stack': seq<NodeId>, pos': nat, ghost ids': seq<NodeId>)
    requires doc.Valid() && Ordered(doc.nodes) && Chain(doc.nodes, root, stack) && FoundFrom(m, pos, |data|)
    requires Tracks(doc.nodes, ids, o, stack) && ids[0] == root && Nested(doc.nodes, ids, o.parents, root)
    modifies doc
    ensures doc.Valid() && Ordered(doc.nodes) && Grows(old(doc.nodes), doc.nodes, root)
    ensures Chain(doc.nodes, root, stack') && m.end <= pos' <= |data| + 1
    ensures Tracks(doc.nodes, ids', OutlineStep(data, options, m, o).0, stack') && ids'[0] == root
    ensures Nested(doc.nodes, ids', OutlineStep(data, options, m, o).0.parents, root)
    ensures pos' == OutlineStep(data, options, m, o).1
  {
    ghost var before := doc.nodes;
    ghost var mid;
    stack', pos', mid := ScanStep(doc, root, stack, data, options, pos, m);
    ghost var e: NodeId := |mid|;
    ids' := if m.markup.Tag? && !m.markup.closing then ids + [e] else ids;
    TracksScanStep(before, mid, doc.nodes, root, ids, ids', o, stack, stack', data, options, m, pos');
    NestedScanStep(before, mid, doc.nodes, root, ids, ids', o, stack, stack', data, options, m, pos');
  }

  /**
   * The scan loop: ask for the next match from where the last one ended
   * until there is none, or the position has run past the input.
   */
  method Scan(doc: Document, root: NodeId, data: string, options: Options, scan: Scanner)
    returns (stack: seq<NodeId>, pos: nat, ghost ids: seq<NodeId>)
    requires doc.Valid() && Ordered(doc.nodes) && Chain(doc.nodes, root, [root]) && ScannerSound(scan, data)
    modifies doc
    ensures doc.Valid() && Ordered(doc.nodes) && Grows(old(doc.nodes), doc.nodes, root)
    ensures Chain(doc.nodes, root, stack) && pos <= |data| + 1
    ensures scan(data, 0).None? ==> doc.nodes == old(doc.nodes) && stack == [root] && pos == 0
    ensures Tracks(doc.nodes, ids, ParseOutline(data, options, scan), stack) && ids[0] == root
    ensures Nested(doc.nodes, ids, ParseOutline(data, options, scan).parents, root)
  {
    stack := [root];
    pos := 0;
    ids := [root];
    ghost var o := RootOutline;
    while true
      invariant doc.Valid() && Ordered(doc.nodes) && Grows(old(doc.nodes), doc.nodes, root)
      invariant Chain(doc.nodes, root, stack) && pos <= |data| + 1
      invariant pos == 0 ==> doc.nodes == old(doc.nodes) && stack == [root]
      invariant pos > 0 ==> scan(data, 0).Some?
      invariant Tracks(doc.nodes, ids, o, stack) && ids[0] == root && Nested(doc.nodes, ids, o.parents, root)
      invariant ScanOutline(data, options, scan, pos, o) == ParseOutline(data, options, scan)
      decreases |data| + 1 - pos
    {
      if pos > |data| {
        break;
      }
      var found := scan(data, pos);
      if found.None? {
        break;
      }
      ghost var before := doc.nodes;
      ghost var next := OutlineStep(data, options, found.value, o);
      stack, pos, ids := TrackedStep(doc, root, stack, data, options, pos, found.value, ids, o);
      o := next.0;
      GrowsTrans(old(doc.nodes), before, doc.nodes, root);
    }
  }

  // ---------------------------------------------------------------------
  // End-of-input repair

  /**
   * `b` is `a` after `holder.removeChild(last)` and `target.appendChild`
   * of each child of `last` in turn: `last` leaves `holder`'s list and
   * loses its parent, its children follow at the end of `target`'s list,
   * and those that are elements take `target` as their parent.
   */
  predicate Spliced(a: seq<Node>, b: seq<Node>, holder: NodeId, last: NodeId, target: NodeId)
    requires holder < |a| && last < |a| && target < |a|
    requires a[holder].Element? && a[last].Element? && a[target].Element?
  {
    |b| == |a| &&
    b[last] == a[last].(parent := None) &&
    (holder != target ==>
       b[holder] == a[holder].(childNodes := Without(a[holder].childNodes, last)) &&
       b[target] == a[target].(childNodes := a[target].childNodes + a[last].childNodes)) &&
    (holder == target ==>
       b[holder] == a[holder].(childNodes := Without(a[holder].childNodes, last) + a[last].childNodes)) &&
    forall j | 0 <= j < |a| && j != holder && j != target && j != last ::
      b[j] == if a[j].Element? && j in a[last].childNodes then a[j].(parent := Some(target)) else a[j]
  }

  /**
   * `ns` is `mid` after the first `i` of `kids` were appended to `target`
   * one by one.
   */
  predicate MovedUpTo(mid: seq<Node>, ns: seq<Node>, last: NodeId, target: NodeId, kids: seq<NodeId>, i: nat) {
    i <= |kids| && |ns| == |mid| && last < |ns| && target < |ns| && target != last && mid[target].Element? &&
    ns[last] == mid[last] &&
    ns[target] == mid[target].(childNodes := mid[target].childNodes + kids[..i]) &&
    forall j | 0 <= j < |mid| && j != target && j != last ::
      ns[j] == if mid[j].Element? && j in kids[..i] then mid[j].(parent := Some(target)) else mid[j]
  }

  lemma MovedStep(mid: seq<Node>, ns: seq<Node>, ns': seq<Node>, last: NodeId, target: NodeId, kids: seq<NodeId>, i: nat)
    requires MovedUpTo(mid, ns, last, target, kids, i) && i < |kids|
    requires kids[i] != last && kids[i] != target && kids[i] < |ns|
    requires ns' == WithParent(WithChildren(ns, target, ns[target].childNodes + [kids[i]]), kids[i], Some(target))
    ensures MovedUpTo(mid, ns', last, target, kids, i + 1)
  {
    assert kids[..i + 1] == kids[..i] + [kids[i]];
  }

  lemma MovedAll(a: seq<Node>, mid: seq<Node>, b: seq<Node>, holder: NodeId, last: NodeId, target: NodeId)
    requires holder < |a| && last < |a| && target < |a| && target <= holder < last
    requires a[holder].Element? && a[last].Element? && a[target].Element?
    requires mid == WithParent(WithChildren(a, holder, Without(a[holder].childNodes, last)), last, None)
    requires MovedUpTo(mid, b, last, target, a[last].childNodes, |a[last].childNodes|)
    requires forall k | 0 <= k < |a[last].childNodes| :: last < a[last].childNodes[k]
    ensures Spliced(a, b, holder, last, target)
  {
    var kids := a[last].childNodes;
    assert kids[..|kids|] == kids;
    assert holder !in kids;
  }

  /** Removes `last` from `holder` and appends its children to `target`. */
  method Splice(doc: Document, holder: NodeId, last: NodeId, target: NodeId)
    requires doc.Valid() && Ordered(doc.nodes) && target <= holder < last < |doc.nodes|
    requires doc.nodes[holder].Element? && doc.nodes[last].Element? && doc.nodes[target].Element?
    modifies doc
    ensures doc.Valid() && Ordered(doc.nodes)
    ensures Spliced(old(doc.nodes), doc.nodes, holder, last, target)
  {
    ghost var a := doc.nodes;
    doc.RemoveChild(holder, last);
    ghost var mid := doc.nodes;
    var kids := doc.nodes[last].childNodes;
    assert kids == a[last].childNodes;
    assert forall k | 0 <= k < |kids| :: last < kids[k] < |a|;
    for i := 0 to |kids|
      invariant doc.Valid() && Ordered(doc.nodes)
      invariant MovedUpTo(mid, doc.nodes, last, target, kids, i)
    {
      ghost var ns := doc.nodes;
      doc.AppendChild(target, kids[i]);
      MovedStep(mid, ns, doc.nodes, last, target, kids, i);
    }
    MovedAll(a, mid, doc.nodes, holder, last, target);
  }

  /**
   * `b` is `a` with only child lists and parents changed, and every node
   * below `lo` untouched.
   */
  predicate Repaired(a: seq<Node>, b: seq<Node>, lo: nat) {
    |a| == |b| &&
    forall j | 0 <= j < |a| :: SameTag(a[j], b[j]) && (j < lo ==> b[j] == a[j])
  }

  lemma RepairedTrans(a: seq<Node>, b: seq<Node>, c: seq<Node>, lo: nat)
    requires Repaired(a, b, lo) && Repaired(b, c, lo)
    ensures Repaired(a, c, lo)
  {
  }

  /** A splice below the top of the stack keeps the shape of the stack. */
  lemma SplicedKeeps(a: seq<Node>, b: seq<Node>, holder: NodeId, last: NodeId, target: NodeId, root: NodeId, stack: seq<NodeId>)
    requires holder < |a| && last < |a| && target < |a| && root <= target <= holder < last
    requires a[holder].Element? && a[last].Element? && a[target].Element?
    requires Spliced(a, b, holder, last, target) && Ordered(a)
    requires Chain(a, root, stack) && Top(stack) < last
    ensures Chain(b, root, stack) && Repaired(a, b, root)
  {
    ChainEntries(a, root, stack);
    SplicedRepaired(a, b, holder, last, target, root);
    ChainGrows(a, b, root, stack);
  }

  /** A splice changes only child lists and parents, and nothing below the target. */
  lemma SplicedRepaired(a: seq<Node>, b: seq<Node>, holder: NodeId, last: NodeId, target: NodeId, lo: nat)
    requires holder < |a| && last < |a| && target < |a| && lo <= target <= holder < last
    requires a[holder].Element? && a[last].Element? && a[target].Element?
    requires Spliced(a, b, holder, last, target) && Ordered(a)
    ensures Repaired(a, b, lo)
    ensures forall j | 0 <= j < |a| && j < last && j != holder && j != target :: b[j] == a[j]
  {
    forall j | 0 <= j < |a|
      ensures SameTag(a[j], b[j]) && (j < lo ==> b[j] == a[j])
      ensures j < last && j != holder && j != target ==> b[j] == a[j]
    {
      if j < last && j != holder && j != target {
        assert j !in a[last].childNodes by {
          assert forall k | 0 <= k < |a[last].childNodes| :: last < a[last].childNodes[k];
        }
      }
    }
  }

  /**
   * One round of the repair with `stack` open takes `a` to `b` and leaves
   * `stack'` open: with the root and one element open, that element is
   * popped and nothing changes; otherwise the top element is spliced out
   * of the element below it, into the element below that when both carry
   * the same tag (and both are popped), into the element itself otherwise.
   */
  predicate Round(a: seq<Node>, b: seq<Node>, stack: seq<NodeId>, stack': seq<NodeId>) {
    |stack| >= 2 && (forall i | 0 <= i < |stack| :: stack[i] < |a| && a[stack[i]].Element?) &&
    if |stack| == 2 then b == a && stack' == stack[..1]
    else
      var last := stack[|stack| - 1];
      var oneBefore := stack[|stack| - 2];
      var pair := a[last].tagName == a[oneBefore].tagName;
      var target := if pair then stack[|stack| - 3] else oneBefore;
      stack' == stack[..if pair then |stack| - 2 else |stack| - 1] &&
      Spliced(a, b, oneBefore, last, target)
  }

  /**
   * Rounds of the repair, one after another, take `a` with `stack` open to
   * `b` with `open` open.
   */
  ghost predicate Rounds(a: seq<Node>, b: seq<Node>, stack: seq<NodeId>, open: seq<NodeId>)
    decreases |stack| - |open|
  {
    (open == stack && b == a) ||
    exists m, prev :: |open| < |prev| <= |stack| && Rounds(a, m, stack, prev) && Round(m, b, prev, open)
  }

  /** A round has one outcome: the repair is a function of the document and the stack. */
  lemma RoundUnique(a: seq<Node>, b: seq<Node>, c: seq<Node>, stack: seq<NodeId>, s1: seq<NodeId>, s2: seq<NodeId>)
    requires Round(a, b, stack, s1) && Round(a, c, stack, s2)
    ensures b == c && s1 == s2
  {
    if |stack| > 2 {
      forall j | 0 <= j < |b|
        ensures b[j] == c[j]
      {
      }
    }
  }

  /** Every round pops at least one element. */
  lemma RoundPops(a: seq<Node>, b: seq<Node>, stack: seq<NodeId>, stack': seq<NodeId>)
    requires Round(a, b, stack, stack')
    ensures 1 <= |stack'| < |stack|
  {
  }

  /**
   * One round of the repair: the top element `last` is popped. Directly
   * under the root it stays where it is. Under an element with the same
   * tag (the `<h3><h3>` case) it is taken out, its children follow that
   * element in the grandparent, and that element is popped too. Under any
   * other element it is taken out and its children take its place at the
   * end of that element's list.
   */
  method RecoverStep(doc: Document, ghost root: NodeId, stack: seq<NodeId>) returns (stack': seq<NodeId>)
    requires doc.Valid() && Ordered(doc.nodes) && Chain(doc.nodes, root, stack) && |stack| >= 2
    modifies doc
    ensures doc.Valid() && Ordered(doc.nodes) && Chain(doc.nodes, root, stack') && Repaired(old(doc.nodes), doc.nodes, root)
    ensures |stack| == 2 ==> doc.nodes == old(doc.nodes) && stack' == stack[..1]
    ensures |stack| > 2 ==>
              var last := stack[|stack| - 1];
              var oneBefore := stack[|stack| - 2];
              var pair := old(doc.nodes[last]).tagName == old(doc.nodes[oneBefore]).tagName;
              var target := if pair then stack[|stack| - 3] else oneBefore;
              stack' == stack[..if pair then |stack| - 2 else |stack| - 1] &&
              Spliced(old(doc.nodes), doc.nodes, oneBefore, last, target)
    ensures Round(old(doc.nodes), doc.nodes, stack, stack')
  {
    ChainEntries(doc.nodes, root, stack);
    var last := Top(stack);
    stack' := stack[..|stack| - 1];
    var oneBefore := Top(stack');
    ChainPrefix(doc.nodes, root, stack, |stack'|);
    var up := doc.nodes[last].parent;
    assert up == Some(oneBefore);
    assert |stack| > 2 ==> doc.nodes[oneBefore].parent == Some(stack[|stack| - 3]);
    if up.Some? && doc.nodes[up.value].parent.Some? {
      if up.value == oneBefore && doc.nodes[last].tagName == doc.nodes[oneBefore].tagName {
        stack' := RepairPair(doc, root, stack);
      } else {
        RepairSingle(doc, root, stack);
      }
    }
  }

  /** The pair case of the repair: `last` under an element with its own tag. */
  method RepairPair(doc: Document, ghost root: NodeId, stack: seq<NodeId>) returns (stack': seq<NodeId>)
    requires doc.Valid() && Ordered(doc.nodes) && Chain(doc.nodes, root, stack) && |stack| > 2
    modifies doc
    ensures doc.Valid() && Ordered(doc.nodes) && Chain(doc.nodes, root, stack') && Repaired(old(doc.nodes), doc.nodes, root)
    ensures stack' == stack[..|stack| - 2]
    ensures Spliced(old(doc.nodes), doc.nodes, stack[|stack| - 2], stack[|stack| - 1], stack[|stack| - 3])
  {
    ChainEntries(doc.nodes, root, stack);
    ghost var before := doc.nodes;
    var last := stack[|stack| - 1];
    var oneBefore := stack[|stack| - 2];
    assert doc.nodes[oneBefore].parent == Some(stack[|stack| - 3]);
    Splice(doc, oneBefore, last, doc.nodes[oneBefore].parent.value);
    stack' := stack[..|stack| - 2];
    ChainPrefix(before, root, stack, |stack'|);
    SplicedKeeps(before, doc.nodes, oneBefore, last, stack[|stack| - 3], root, stack');
  }

  /** The single case of the repair: `last` under an element with another tag. */
  method RepairSingle(doc: Document, ghost root: NodeId, stack: seq<NodeId>)
    requires doc.Valid() && Ordered(doc.nodes) && Chain(doc.nodes, root, stack) && |stack| > 2
    modifies doc
    ensures doc.Valid() && Ordered(doc.nodes) && Chain(doc.nodes, root, stack[..|stack| - 1])
    ensures Repaired(old(doc.nodes), doc.nodes, root)
    ensures Spliced(old(doc.nodes), doc.nodes, stack[|stack| - 2], stack[|stack| - 1], stack[|stack| - 2])
  {
    ChainEntries(doc.nodes, root, stack);
    ghost var before := doc.nodes;
    var last := stack[|stack| - 1];
    var oneBefore := stack[|stack| - 2];
    Splice(doc, oneBefore, last, oneBefore);
    ChainPrefix(before, root, stack, |stack| - 1);
    SplicedKeeps(before, doc.nodes, oneBefore, last, oneBefore, root, stack[..|stack| - 1]);
  }

  /**
   * The repair loop: while elements other than the root are open, pop and
   * repair them one round at a time.
   */
  method Recover(doc: Document, ghost root: NodeId, stack: seq<NodeId>)
    requires doc.Valid() && Ordered(doc.nodes) && Chain(doc.nodes, root, stack)
    modifies doc
    ensures doc.Valid() && Ordered(doc.nodes) && Repaired(old(doc.nodes), doc.nodes, root)
    ensures Chain(doc.nodes, root, [root])
    ensures |stack| == 1 ==> doc.nodes == old(doc.nodes)
    ensures Rounds(old(doc.nodes), doc.nodes, stack, [root])
  {
    var open := stack;
    while |open| > 1
      invariant doc.Valid() && Ordered(doc.nodes) && Chain(doc.nodes, root, open)
      invariant Repaired(old(doc.nodes), doc.nodes, root)
      invariant |open| <= |stack| && (|stack| == 1 ==> doc.nodes == old(doc.nodes))
      invariant Rounds(old(doc.nodes), doc.nodes, stack, open)
      decreases |open|
    {
      ghost var before := doc.nodes;
      ghost var prev := open;
      open := RecoverStep(doc, root, open);
      RepairedTrans(old(doc.nodes), before, doc.nodes, root);
      RoundPops(before, doc.nodes, prev, open);
      assert Rounds(old(doc.nodes), before, stack, prev) && Round(before, doc.nodes, prev, open);
    }
    assert open == [root];
  }

  /**
   * The part of `parse` before the repair: a new root element with the
   * empty tag, the scan, and the text after the last match appended to the
   * root (not to the open element).
   */
  method Build(doc: Document, data: string, options: Options, scan: Scanner)
    returns (root: NodeId, stack: seq<NodeId>, ghost ids: seq<NodeId>)
    requires doc.Valid() && Ordered(doc.nodes) && ScannerSound(scan, data)
    modifies doc
    ensures doc.Valid() && Ordered(doc.nodes) && root == old(|doc.nodes|) && Chain(doc.nodes, root, stack)
    ensures doc.nodes[root].rawAttrs == ""
    ensures forall j | 0 <= j < root :: doc.nodes[j] == old(doc.nodes[j])
    ensures scan(data, 0).None? ==>
              stack == [root] && doc.nodes[root].childNodes == (if data == "" then [] else [root + 1]) &&
              (data != "" ==> root + 1 < |doc.nodes| && doc.nodes[root + 1] == Text(data))
    ensures Tracks(doc.nodes, ids, ParseOutline(data, options, scan), stack) && ids[0] == root
    ensures Nested(doc.nodes, ids, ParseOutline(data, options, scan).parents, root)
  {
    root := NewRoot(doc);
    ghost var created := doc.nodes;
    var pos;
    stack, pos, ids := Scan(doc, root, data, options, scan);
    if pos < |data| {
      ghost var before := doc.nodes;
      TrailingText(doc, root, data, pos, stack, ids, ParseOutline(data, options, scan));
      assert doc.nodes[|before|] == Text(data[pos..]) && doc.nodes[root].childNodes == before[root].childNodes + [|before|];
      assert data[0..] == data;
      GrowsTrans(created, before, doc.nodes, root);
      NestedGrows(before, doc.nodes, root, ids, ParseOutline(data, options, scan).parents, root);
    }
  }

  /** Text appended to the root after the scan keeps the chain and the outline. */
  lemma TracksLeaf(ns: seq<Node>, ns': seq<Node>, root: NodeId, ids: seq<NodeId>, o: Outline, stack: seq<NodeId>, leaf: Node)
    requires Chain(ns, root, stack) && Tracks(ns, ids, o, stack)
    requires ns' == ns[root := ns[root].(childNodes := ns[root].childNodes + [|ns|])] + [leaf]
    ensures Grows(ns, ns', root) && Chain(ns', root, stack) && Tracks(ns', ids, o, stack)
  {
    ChainEntries(ns, root, stack);
    LeafGrows(ns, root, |ns|, leaf, root);
    ChainGrows(ns, ns', root, stack);
    TracksGrows(ns, ns', root, ids, o, stack);
  }

  /**
   * After the repair the elements of the outline keep their tags, the
   * elements left open are those of the outline's open list, and when
   * nothing was left open every element keeps the parent of the outline.
   */
  lemma RepairedOutline(built: seq<Node>, ns: seq<Node>, root: NodeId, ids: seq<NodeId>, o: Outline,
                        stack: seq<NodeId>, unclosed: seq<NodeId>)
    requires Tracks(built, ids, o, stack) && Repaired(built, ns, root) && Nested(built, ids, o.parents, root)
    requires |stack| >= 1 && unclosed == stack[1..] && (|stack| == 1 ==> ns == built)
    ensures forall k | 0 <= k < |ids| :: root <= ids[k]
    ensures |stack| == 1 ==> Nested(ns, ids, o.parents, root)
    ensures |ids| == |o.tags| && (|stack| == 1 <==> |o.open| == 1)
    ensures forall k | 0 <= k < |ids| :: ids[k] < |ns| && ns[ids[k]].Element? && ns[ids[k]].tagName == o.tags[k]
    ensures |stack| == 1 ==> forall k | 1 <= k < |ids| :: ns[ids[k]].parent == Some(ids[o.parents[k]])
    ensures |unclosed| + 1 == |o.open| && forall i | 0 <= i < |unclosed| :: unclosed[i] == ids[o.open[i + 1]]
  {
    TracksRepaired(built, ns, root, ids, o, stack);
  }

  /** `new HTMLElement(null, {}, '', null, …)`: the synthetic root, with an empty tag and no parent. */
  method NewRoot(doc: Document) returns (root: NodeId)
    requires doc.Valid() && Ordered(doc.nodes)
    modifies doc
    ensures doc.Valid() && Ordered(doc.nodes) && root == old(|doc.nodes|) && Chain(doc.nodes, root, [root])
    ensures doc.nodes == old(doc.nodes) + [doc.nodes[root]] && doc.nodes[root].rawAttrs == "" && doc.nodes[root].childNodes == []
  {
    root := doc.NewElement("", "", None);
    assert Ordered(doc.nodes) by {
      assert forall n | 0 <= n < root :: doc.nodes[n] == old(doc.nodes)[n];
    }
  }

  /** Appends the text after the last match to the root; the chain and the outline are kept. */
  method TrailingText(doc: Document, root: NodeId, data: string, pos: nat,
                      ghost stack: seq<NodeId>, ghost ids: seq<NodeId>, ghost o: Outline)
    requires doc.Valid() && Ordered(doc.nodes) && Chain(doc.nodes, root, stack) && Tracks(doc.nodes, ids, o, stack)
    requires pos < |data|
    modifies doc
    ensures doc.Valid() && Ordered(doc.nodes) && Grows(old(doc.nodes), doc.nodes, root)
    ensures Chain(doc.nodes, root, stack) && Tracks(doc.nodes, ids, o, stack)
    ensures doc.nodes == old(doc.nodes)[root := old(doc.nodes[root]).(childNodes := old(doc.nodes[root].childNodes) + [old(|doc.nodes|)])] +
                         [Text(data[pos..])]
  {
    ChainEntries(doc.nodes, root, stack);
    ghost var before := doc.nodes;
    var _ := AppendLeaf(doc, root, Text(data[pos..]));
    TracksLeaf(before, doc.nodes, root, ids, o, stack, Text(data[pos..]));
  }

  /**
   * `parse(data, options)`: `Build`, then `valid` read from the stack
   * height, then the repair. Nodes already in the arena are left alone;
   * `ids` lists the elements the scan created, in the order of the
   * outline, and `unclosed` those it left open.
   */
  method Parse(doc: Document, data: string, options: Options, scan: Scanner)
    returns (root: NodeId, valid: bool, ghost unclosed: seq<NodeId>, ghost ids: seq<NodeId>)
    requires doc.Valid() && Ordered(doc.nodes) && ScannerSound(scan, data)
    modifies doc
    ensures doc.Valid() && Ordered(doc.nodes) && root == old(|doc.nodes|) < |doc.nodes|
    ensures doc.nodes[..root] == old(doc.nodes)
    ensures doc.nodes[root].Element? && doc.nodes[root].tagName == "" && doc.nodes[root].rawAttrs == "" &&
            doc.nodes[root].parent.None?
    ensures valid <==> unclosed == []
    ensures forall u | u in unclosed :: root < u < |doc.nodes| && doc.nodes[u].Element? && doc.nodes[u].tagName != ""
    ensures scan(data, 0).None? ==>
              valid && doc.nodes[root].childNodes == (if data == "" then [] else [root + 1]) &&
              (data != "" ==> root + 1 < |doc.nodes| && doc.nodes[root + 1] == Text(data))
    ensures valid <==> |ParseOutline(data, options, scan).open| == 1
    ensures |ids| == |ParseOutline(data, options, scan).tags| && ids[0] == root
    ensures forall k | 0 <= k < |ids| ::
              ids[k] < |doc.nodes| && doc.nodes[ids[k]].Element? && doc.nodes[ids[k]].tagName == ParseOutline(data, options, scan).tags[k]
    ensures valid ==> forall k | 1 <= k < |ids| :: doc.nodes[ids[k]].parent == Some(ids[ParseOutline(data, options, scan).parents[k]])
    ensures forall k | 0 <= k < |ids| :: root <= ids[k]
    ensures valid ==> Nested(doc.nodes, ids, ParseOutline(data, options, scan).parents, root)
    ensures |unclosed| + 1 == |ParseOutline(data, options, scan).open| &&
            forall i | 0 <= i < |unclosed| :: unclosed[i] == ids[ParseOutline(data, options, scan).open[i + 1]]
  {
    var stack;
    root, stack, ids := Build(doc, data, options, scan);
    ghost var built := doc.nodes;
    valid, unclosed := Finish(doc, root, stack, ids, ParseOutline(data, options, scan));
    assert doc.nodes[..root] == old(doc.nodes) by {
      assert forall j | 0 <= j < root :: doc.nodes[j] == built[j];
    }
  }

  /**
   * The end of `parse`: `valid` is read from the stack height, then the
   * repair runs; the elements the scan created keep the outline's tags, and
   * its parents and nesting when nothing was left open.
   */
  method Finish(doc: Document, root: NodeId, stack: seq<NodeId>, ghost ids: seq<NodeId>, ghost o: Outline)
    returns (valid: bool, ghost unclosed: seq<NodeId>)
    requires doc.Valid() && Ordered(doc.nodes) && Chain(doc.nodes, root, stack)
    requires Tracks(doc.nodes, ids, o, stack) && Nested(doc.nodes, ids, o.parents, root)
    modifies doc
    ensures doc.Valid() && Ordered(doc.nodes) && |doc.nodes| == old(|doc.nodes|)
    ensures forall j | 0 <= j < root :: doc.nodes[j] == old(doc.nodes[j])
    ensures doc.nodes[root].Element? && doc.nodes[root].tagName == "" && doc.nodes[root].parent.None?
    ensures doc.nodes[root].rawAttrs == old(doc.nodes[root].rawAttrs)
    ensures valid <==> unclosed == []
    ensures valid ==> doc.nodes == old(doc.nodes)
    ensures forall u | u in unclosed :: root < u < |doc.nodes| && doc.nodes[u].Element? && doc.nodes[u].tagName != ""
    ensures valid <==> |o.open| == 1
    ensures forall k | 0 <= k < |ids| :: root <= ids[k] < |doc.nodes| && doc.nodes[ids[k]].Element? && doc.nodes[ids[k]].tagName == o.tags[k]
    ensures valid ==> forall k | 1 <= k < |ids| :: doc.nodes[ids[k]].parent == Some(ids[o.parents[k]])
    ensures valid ==> Nested(doc.nodes, ids, o.parents, root)
    ensures |unclosed| + 1 == |o.open| && forall i | 0 <= i < |unclosed| :: unclosed[i] == ids[o.open[i + 1]]
  {
    ghost var built := doc.nodes;
    valid := |stack| == 1;
    unclosed := stack[1..];
    ChainEntries(doc.nodes, root, stack);
    assert forall u | u in unclosed :: root < u < |built| && built[u].Element? && built[u].tagName != "";
    Recover(doc, root, stack);
    assert forall u | u in unclosed :: SameTag(built[u], doc.nodes[u]);
    RepairedOutline(built, doc.nodes, root, ids, o, stack, unclosed);
  }
}
