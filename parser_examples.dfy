/**
 * Worked examples of the outline `parse` builds. Each example takes any
 * input of the given length on which the scanner reports the matches the
 * markup expression finds in the string named in its comment, and computes
 * the outline: the tag of every element, the parent it is given, and the
 * elements left open at the end (only the root when the input is valid).
 * The steps are proved once, for any outline, by the lemmas at the top.
 */
module ParserExamples {
  import opened Wrappers
  import opened Parser

  function StartOf(start: nat, end: nat, name: string, attrs: string): MarkupMatch {
    MarkupMatch(start, end, Tag(false, name, attrs, false))
  }

  function EndOf(start: nat, end: nat, name: string): MarkupMatch {
    MarkupMatch(start, end, Tag(true, name, "", false))
  }

  /** A start tag that the open element does not close opens a child of it. */
  lemma OpensInside(data: string, options: Options, m: MarkupMatch, o: Outline, name: string)
    requires FoundFrom(m, 0, |data|) && m.markup.Tag? && !m.markup.closing && !m.markup.selfClosing && OutlineOk(o)
    requires name == TagName(options, m.markup.name) && name !in VoidTags && name !in RawTextTags
    requires name !in ClosedByOpening(o.tags[o.open[|o.open| - 1]])
    ensures OutlineStep(data, options, m, o) ==
              (Outline(o.tags + [name], o.parents + [o.open[|o.open| - 1]], o.open + [|o.tags|]), m.end)
  {
    assert o.open[..|o.open|] == o.open;
  }

  /** A start tag that the open element closes opens a sibling of it. */
  lemma OpensBeside(data: string, options: Options, m: MarkupMatch, o: Outline, name: string)
    requires FoundFrom(m, 0, |data|) && m.markup.Tag? && !m.markup.closing && !m.markup.selfClosing && OutlineOk(o)
    requires name == TagName(options, m.markup.name) && name !in VoidTags && name !in RawTextTags
    requires name in ClosedByOpening(o.tags[o.open[|o.open| - 1]])
    ensures |o.open| >= 2
    ensures OutlineStep(data, options, m, o) ==
              (Outline(o.tags + [name], o.parents + [o.open[|o.open| - 2]], o.open[..|o.open| - 1] + [|o.tags|]), m.end)
  {
  }

  /** A start tag closed with `/>` adds a child of the open element and leaves the stack as it was. */
  lemma OpensShut(data: string, options: Options, m: MarkupMatch, o: Outline, name: string)
    requires FoundFrom(m, 0, |data|) && m.markup.Tag? && !m.markup.closing && m.markup.selfClosing && OutlineOk(o)
    requires name == TagName(options, m.markup.name) && name !in RawTextTags
    ensures OutlineStep(data, options, m, o) ==
              (Outline(o.tags + [name], o.parents + [o.open[|o.open| - 1]], o.open), m.end)
  {
    var h := ImplicitHeight(OpenTags(o), name, true);
    assert h == |o.open|;
    assert o.open[..h] + [] == o.open;
  }

  /** An end tag closes the nearest open element it names, with everything opened after it. */
  lemma ClosesOpen(data: string, options: Options, m: MarkupMatch, o: Outline, name: string, j: nat)
    requires FoundFrom(m, 0, |data|) && m.markup.Tag? && m.markup.closing && OutlineOk(o)
    requires name == TagName(options, m.markup.name) && name !in VoidTags
    requires j < |o.open| && o.tags[o.open[j]] == name
    requires forall i | j < i < |o.open| :: o.tags[o.open[i]] != name
    ensures OutlineStep(data, options, m, o) == (o.(open := o.open[..j]), m.end)
  {
    ClosesNearest(OpenTags(o), name, |o.open|, j);
  }

  /** An end tag that names no open element leaves only the root open. */
  lemma ClosesNone(data: string, options: Options, m: MarkupMatch, o: Outline, name: string)
    requires FoundFrom(m, 0, |data|) && m.markup.Tag? && m.markup.closing && OutlineOk(o)
    requires name == TagName(options, m.markup.name) && name !in VoidTags && name != ""
    requires forall i | 0 <= i < |o.open| :: o.tags[o.open[i]] != name
    ensures OutlineStep(data, options, m, o) == (o.(open := o.open[..1]), m.end)
  {
    ClosesToBottom(OpenTags(o), name, |o.open|);
  }

  /** The scan applies the match found at `pos`, then runs on from where the step resumes. */
  lemma ScanOutlineNext(data: string, options: Options, scan: Scanner, pos: nat, o: Outline, m: MarkupMatch,
                        o': Outline, pos': nat)
    requires ScannerSound(scan, data) && OutlineOk(o) && pos <= |data| && scan(data, pos) == Some(m)
    requires FoundFrom(m, 0, |data|) && OutlineStep(data, options, m, o) == (o', pos')
    ensures ScanOutline(data, options, scan, pos, o) == ScanOutline(data, options, scan, pos', o')
  {
  }

  /** The first start tag of a name that is neither void nor raw text opens a child of the root. */
  lemma OpensFirst(data: string, m: MarkupMatch, name: string)
    requires FoundFrom(m, 0, |data|) && m.markup.Tag? && !m.markup.closing && !m.markup.selfClosing
    requires m.markup.name == name && name !in VoidTags && name !in RawTextTags
    ensures OutlineStep(data, NoOptions, m, RootOutline) == (Outline(["", name], [0, 0], [0, 1]), m.end)
  {
    OpensInside(data, NoOptions, m, RootOutline, name);
    assert RootOutline.tags + [name] == ["", name] && RootOutline.parents + [0] == [0, 0] && RootOutline.open + [1] == [0, 1];
  }

  /**
   * `<p><h3></p>` is valid: the heading closes the paragraph, and the end
   * tag, which then names nothing open, leaves only the root.
   */
  lemma HeadingAfterParagraph(data: string, scan: Scanner)
    requires |data| == 11 && ScannerSound(scan, data)
    requires scan(data, 0) == Some(StartOf(0, 3, "p", "")) && scan(data, 3) == Some(StartOf(3, 7, "h3", ""))
    requires scan(data, 7) == Some(EndOf(7, 11, "p")) && scan(data, 11) == None
    ensures ParseOutline(data, NoOptions, scan) == Outline(["", "p", "h3"], [0, 0, 0], [0])
  {
    var o1 := Outline(["", "p"], [0, 0], [0, 1]);
    var o2 := Outline(["", "p", "h3"], [0, 0, 0], [0, 2]);
    var o3 := Outline(["", "p", "h3"], [0, 0, 0], [0]);
    OpensFirst(data, StartOf(0, 3, "p", ""), "p");
    HeadingClosesParagraph(data);
    StrayParagraphEnd(data);
    ScanOutlineNext(data, NoOptions, scan, 7, o2, EndOf(7, 11, "p"), o3, 11);
    ScanOutlineNext(data, NoOptions, scan, 3, o1, StartOf(3, 7, "h3", ""), o2, 7);
    ScanOutlineNext(data, NoOptions, scan, 0, RootOutline, StartOf(0, 3, "p", ""), o1, 3);
  }

  /** In `<p><h3></p>`, the heading closes the paragraph and opens beside it. */
  lemma HeadingClosesParagraph(data: string)
    requires |data| == 11
    ensures OutlineStep(data, NoOptions, StartOf(3, 7, "h3", ""), Outline(["", "p"], [0, 0], [0, 1])) ==
              (Outline(["", "p", "h3"], [0, 0, 0], [0, 2]), 7)
  {
    var o1 := Outline(["", "p"], [0, 0], [0, 1]);
    OpensBeside(data, NoOptions, StartOf(3, 7, "h3", ""), o1, "h3");
    assert o1.tags + ["h3"] == ["", "p", "h3"] && o1.parents + [0] == [0, 0, 0] && o1.open[..1] + [2] == [0, 2];
  }

  /** In `<p><h3></p>`, the end tag names nothing open, so only the root stays open. */
  lemma StrayParagraphEnd(data: string)
    requires |data| == 11
    ensures OutlineStep(data, NoOptions, EndOf(7, 11, "p"), Outline(["", "p", "h3"], [0, 0, 0], [0, 2])) ==
              (Outline(["", "p", "h3"], [0, 0, 0], [0]), 11)
  {
    var o2 := Outline(["", "p", "h3"], [0, 0, 0], [0, 2]);
    ClosesNone(data, NoOptions, EndOf(7, 11, "p"), o2, "p");
    assert o2.open[..1] == [0];
  }

  /**
   * `<p><p></p>` is valid: the second paragraph closes the first, so both
   * hang from the root, and the end tag closes the second.
   */
  lemma SiblingParagraphs(data: string, scan: Scanner)
    requires |data| == 10 && ScannerSound(scan, data)
    requires scan(data, 0) == Some(StartOf(0, 3, "p", "")) && scan(data, 3) == Some(StartOf(3, 6, "p", ""))
    requires scan(data, 6) == Some(EndOf(6, 10, "p")) && scan(data, 10) == None
    ensures ParseOutline(data, NoOptions, scan) == Outline(["", "p", "p"], [0, 0, 0], [0])
  {
    var o1 := Outline(["", "p"], [0, 0], [0, 1]);
    var o2 := Outline(["", "p", "p"], [0, 0, 0], [0, 2]);
    var o3 := Outline(["", "p", "p"], [0, 0, 0], [0]);
    OpensFirst(data, StartOf(0, 3, "p", ""), "p");
    ParagraphClosesParagraph(data);
    ParagraphEnd(data);
    ScanOutlineNext(data, NoOptions, scan, 6, o2, EndOf(6, 10, "p"), o3, 10);
    ScanOutlineNext(data, NoOptions, scan, 3, o1, StartOf(3, 6, "p", ""), o2, 6);
    ScanOutlineNext(data, NoOptions, scan, 0, RootOutline, StartOf(0, 3, "p", ""), o1, 3);
  }

  /** In `<p><p></p>`, the second paragraph closes the first and opens beside it. */
  lemma ParagraphClosesParagraph(data: string)
    requires |data| == 10
    ensures OutlineStep(data, NoOptions, StartOf(3, 6, "p", ""), Outline(["", "p"], [0, 0], [0, 1])) ==
              (Outline(["", "p", "p"], [0, 0, 0], [0, 2]), 6)
  {
    var o1 := Outline(["", "p"], [0, 0], [0, 1]);
    OpensBeside(data, NoOptions, StartOf(3, 6, "p", ""), o1, "p");
    assert o1.tags + ["p"] == ["", "p", "p"] && o1.parents + [0] == [0, 0, 0] && o1.open[..1] + [2] == [0, 2];
  }

  /** In `<p><p></p>`, the end tag closes the second paragraph. */
  lemma ParagraphEnd(data: string)
    requires |data| == 10
    ensures OutlineStep(data, NoOptions, EndOf(6, 10, "p"), Outline(["", "p", "p"], [0, 0, 0], [0, 2])) ==
              (Outline(["", "p", "p"], [0, 0, 0], [0]), 10)
  {
    var o2 := Outline(["", "p", "p"], [0, 0, 0], [0, 2]);
    ClosesOpen(data, NoOptions, EndOf(6, 10, "p"), o2, "p", 1);
    assert o2.open[..1] == [0];
  }

  /**
   * `<p><p/></p>` is valid: a paragraph closed with `/>` does not close the
   * open one, so it nests inside it, and the end tag closes the outer one.
   */
  lemma NestedSelfClosing(data: string, scan: Scanner)
    requires |data| == 11 && ScannerSound(scan, data)
    requires scan(data, 0) == Some(StartOf(0, 3, "p", "")) && scan(data, 3) == Some(MarkupMatch(3, 7, Tag(false, "p", "", true)))
    requires scan(data, 7) == Some(EndOf(7, 11, "p")) && scan(data, 11) == None
    ensures ParseOutline(data, NoOptions, scan) == Outline(["", "p", "p"], [0, 0, 1], [0])
  {
    var o1 := Outline(["", "p"], [0, 0], [0, 1]);
    var o2 := Outline(["", "p", "p"], [0, 0, 1], [0, 1]);
    var o3 := Outline(["", "p", "p"], [0, 0, 1], [0]);
    OpensFirst(data, StartOf(0, 3, "p", ""), "p");
    ShutParagraph(data);
    OuterParagraphEnd(data);
    ScanOutlineNext(data, NoOptions, scan, 7, o2, EndOf(7, 11, "p"), o3, 11);
    ScanOutlineNext(data, NoOptions, scan, 3, o1, MarkupMatch(3, 7, Tag(false, "p", "", true)), o2, 7);
    ScanOutlineNext(data, NoOptions, scan, 0, RootOutline, StartOf(0, 3, "p", ""), o1, 3);
  }

  /** In `<p><p/></p>`, the self-closed paragraph hangs from the open one and leaves it open. */
  lemma ShutParagraph(data: string)
    requires |data| == 11
    ensures OutlineStep(data, NoOptions, MarkupMatch(3, 7, Tag(false, "p", "", true)), Outline(["", "p"], [0, 0], [0, 1])) ==
              (Outline(["", "p", "p"], [0, 0, 1], [0, 1]), 7)
  {
    var o1 := Outline(["", "p"], [0, 0], [0, 1]);
    OpensShut(data, NoOptions, MarkupMatch(3, 7, Tag(false, "p", "", true)), o1, "p");
    assert o1.tags + ["p"] == ["", "p", "p"] && o1.parents + [1] == [0, 0, 1];
  }

  /** In `<p><p/></p>`, the end tag closes the outer paragraph. */
  lemma OuterParagraphEnd(data: string)
    requires |data| == 11
    ensures OutlineStep(data, NoOptions, EndOf(7, 11, "p"), Outline(["", "p", "p"], [0, 0, 1], [0, 1])) ==
              (Outline(["", "p", "p"], [0, 0, 1], [0]), 11)
  {
    var o2 := Outline(["", "p", "p"], [0, 0, 1], [0, 1]);
    ClosesOpen(data, NoOptions, EndOf(7, 11, "p"), o2, "p", 1);
    assert o2.open[..1] == [0];
  }

  /**
   * `<div data-id=1><h3 data-id=2><h3><div>` is not valid: the second
   * heading closes the first and the last `div` opens inside it, so three
   * elements are left open above the root.
   */
  lemma UnclosedDivisions(data: string, scan: Scanner)
    requires |data| == 38 && ScannerSound(scan, data)
    requires scan(data, 0) == Some(StartOf(0, 15, "div", " data-id=1"))
    requires scan(data, 15) == Some(StartOf(15, 29, "h3", " data-id=2"))
    requires scan(data, 29) == Some(StartOf(29, 33, "h3", "")) && scan(data, 33) == Some(StartOf(33, 38, "div", ""))
    requires scan(data, 38) == None
    ensures ParseOutline(data, NoOptions, scan) == Outline(["", "div", "h3", "h3", "div"], [0, 0, 1, 1, 3], [0, 1, 3, 4])
  {
    var o1 := Outline(["", "div"], [0, 0], [0, 1]);
    var o2 := Outline(["", "div", "h3"], [0, 0, 1], [0, 1, 2]);
    var o3 := Outline(["", "div", "h3", "h3"], [0, 0, 1, 1], [0, 1, 3]);
    var o4 := Outline(["", "div", "h3", "h3", "div"], [0, 0, 1, 1, 3], [0, 1, 3, 4]);
    OpensFirst(data, StartOf(0, 15, "div", " data-id=1"), "div");
    HeadingInDivision(data);
    HeadingClosesHeading(data);
    DivisionInHeading(data);
    ScanOutlineNext(data, NoOptions, scan, 33, o3, StartOf(33, 38, "div", ""), o4, 38);
    ScanOutlineNext(data, NoOptions, scan, 29, o2, StartOf(29, 33, "h3", ""), o3, 33);
    ScanOutlineNext(data, NoOptions, scan, 15, o1, StartOf(15, 29, "h3", " data-id=2"), o2, 29);
    ScanOutlineNext(data, NoOptions, scan, 0, RootOutline, StartOf(0, 15, "div", " data-id=1"), o1, 15);
  }

  /** In `<div data-id=1><h3 data-id=2><h3><div>`, the first heading opens inside the division. */
  lemma HeadingInDivision(data: string)
    requires |data| == 38
    ensures OutlineStep(data, NoOptions, StartOf(15, 29, "h3", " data-id=2"), Outline(["", "div"], [0, 0], [0, 1])) ==
              (Outline(["", "div", "h3"], [0, 0, 1], [0, 1, 2]), 29)
  {
    var o1 := Outline(["", "div"], [0, 0], [0, 1]);
    OpensInside(data, NoOptions, StartOf(15, 29, "h3", " data-id=2"), o1, "h3");
    assert o1.tags + ["h3"] == ["", "div", "h3"] && o1.parents + [1] == [0, 0, 1] && o1.open + [2] == [0, 1, 2];
  }

  /** In `<div data-id=1><h3 data-id=2><h3><div>`, the second heading closes the first and opens beside it. */
  lemma HeadingClosesHeading(data: string)
    requires |data| == 38
    ensures OutlineStep(data, NoOptions, StartOf(29, 33, "h3", ""), Outline(["", "div", "h3"], [0, 0, 1], [0, 1, 2])) ==
              (Outline(["", "div", "h3", "h3"], [0, 0, 1, 1], [0, 1, 3]), 33)
  {
    var o2 := Outline(["", "div", "h3"], [0, 0, 1], [0, 1, 2]);
    OpensBeside(data, NoOptions, StartOf(29, 33, "h3", ""), o2, "h3");
    assert o2.tags + ["h3"] == ["", "div", "h3", "h3"] && o2.parents + [1] == [0, 0, 1, 1] && o2.open[..2] + [3] == [0, 1, 3];
  }

  /** In `<div data-id=1><h3 data-id=2><h3><div>`, the last division opens inside the second heading. */
  lemma DivisionInHeading(data: string)
    requires |data| == 38
    ensures OutlineStep(data, NoOptions, StartOf(33, 38, "div", ""), Outline(["", "div", "h3", "h3"], [0, 0, 1, 1], [0, 1, 3])) ==
              (Outline(["", "div", "h3", "h3", "div"], [0, 0, 1, 1, 3], [0, 1, 3, 4]), 38)
  {
    var o3 := Outline(["", "div", "h3", "h3"], [0, 0, 1, 1], [0, 1, 3]);
    OpensInside(data, NoOptions, StartOf(33, 38, "div", ""), o3, "div");
    assert o3.tags + ["div"] == ["", "div", "h3", "h3", "div"] && o3.parents + [3] == [0, 0, 1, 1, 3] &&
           o3.open + [4] == [0, 1, 3, 4];
  }

  /**
   * `<ul><li>a<li>b</ul>` is valid: the second item closes the first, so
   * both items hang from the list, and the end tag closes the list.
   */
  lemma SiblingItems(data: string, scan: Scanner)
    requires |data| == 19 && ScannerSound(scan, data)
    requires scan(data, 0) == Some(StartOf(0, 4, "ul", "")) && scan(data, 4) == Some(StartOf(4, 8, "li", ""))
    requires scan(data, 8) == Some(StartOf(9, 13, "li", "")) && scan(data, 13) == Some(EndOf(14, 19, "ul"))
    requires scan(data, 19) == None
    ensures ParseOutline(data, NoOptions, scan) == Outline(["", "ul", "li", "li"], [0, 0, 1, 1], [0])
  {
    var o1 := Outline(["", "ul"], [0, 0], [0, 1]);
    var o2 := Outline(["", "ul", "li"], [0, 0, 1], [0, 1, 2]);
    var o3 := Outline(["", "ul", "li", "li"], [0, 0, 1, 1], [0, 1, 3]);
    var o4 := Outline(["", "ul", "li", "li"], [0, 0, 1, 1], [0]);
    OpensFirst(data, StartOf(0, 4, "ul", ""), "ul");
    ItemInList(data);
    ItemClosesItem(data);
    ListEnd(data);
    ScanOutlineNext(data, NoOptions, scan, 13, o3, EndOf(14, 19, "ul"), o4, 19);
    ScanOutlineNext(data, NoOptions, scan, 8, o2, StartOf(9, 13, "li", ""), o3, 13);
    ScanOutlineNext(data, NoOptions, scan, 4, o1, StartOf(4, 8, "li", ""), o2, 8);
    ScanOutlineNext(data, NoOptions, scan, 0, RootOutline, StartOf(0, 4, "ul", ""), o1, 4);
  }

  /** In `<ul><li>a<li>b</ul>`, the first item opens inside the list. */
  lemma ItemInList(data: string)
    requires |data| == 19
    ensures OutlineStep(data, NoOptions, StartOf(4, 8, "li", ""), Outline(["", "ul"], [0, 0], [0, 1])) ==
              (Outline(["", "ul", "li"], [0, 0, 1], [0, 1, 2]), 8)
  {
    var o1 := Outline(["", "ul"], [0, 0], [0, 1]);
    OpensInside(data, NoOptions, StartOf(4, 8, "li", ""), o1, "li");
    assert o1.tags + ["li"] == ["", "ul", "li"] && o1.parents + [1] == [0, 0, 1] && o1.open + [2] == [0, 1, 2];
  }

  /** In `<ul><li>a<li>b</ul>`, the second item closes the first and opens beside it. */
  lemma ItemClosesItem(data: string)
    requires |data| == 19
    ensures OutlineStep(data, NoOptions, StartOf(9, 13, "li", ""), Outline(["", "ul", "li"], [0, 0, 1], [0, 1, 2])) ==
              (Outline(["", "ul", "li", "li"], [0, 0, 1, 1], [0, 1, 3]), 13)
  {
    var o2 := Outline(["", "ul", "li"], [0, 0, 1], [0, 1, 2]);
    OpensBeside(data, NoOptions, StartOf(9, 13, "li", ""), o2, "li");
    assert o2.tags + ["li"] == ["", "ul", "li", "li"] && o2.parents + [1] == [0, 0, 1, 1] && o2.open[..2] + [3] == [0, 1, 3];
  }

  /** In `<ul><li>a<li>b</ul>`, the end tag closes the list with the item still open in it. */
  lemma ListEnd(data: string)
    requires |data| == 19
    ensures OutlineStep(data, NoOptions, EndOf(14, 19, "ul"), Outline(["", "ul", "li", "li"], [0, 0, 1, 1], [0, 1, 3])) ==
              (Outline(["", "ul", "li", "li"], [0, 0, 1, 1], [0]), 19)
  {
    var o3 := Outline(["", "ul", "li", "li"], [0, 0, 1, 1], [0, 1, 3]);
    ClosesOpen(data, NoOptions, EndOf(14, 19, "ul"), o3, "ul", 1);
    assert o3.open[..1] == [0];
  }
}
