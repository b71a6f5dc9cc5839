# node-html-parser core, modelled in Dafny

This project models the core of `node-html-parser`, a tolerant HTML parser. The parser turns a string into a tree of elements, text nodes and comment nodes. It then offers DOM-like editing, rendering back to text, and a small CSS selector engine.

The model has one module per concern:

- **Strings**: the JavaScript string primitives the code relies on. These are the `\s` class, `trim`, `split(/\s+/)`, `indexOf`, `substring`, and the text-node whitespace test `/^(\s|&nbsp;)*$/`.
- **Attributes**: an element's attribute dictionaries. JavaScript plain objects are modelled as insertion-ordered association lists. The module also holds:
  - the scanner behind the `rawAttributes` getter (the attribute pattern);
  - the scanner behind the constructor's `id`/`classNames` projection (the id/class pattern);
  - the attribute string that `setAttribute`/`setAttributes` rebuild.
- **Selectors**: one compound selector segment (`tag#id.class[attr op value]`) and the checks its compiled checker runs.
- **Matching**: the `Matcher` class. It holds the segments of a descendant chain and the `nextMatch` cursor. Its methods are `advance`, `rewind`, `reset` and `clone`.
- **Dom**: the tree itself. Nodes live in an arena owned by the `Document` class and are named by their index. A node shared by two parents, and an update to a node seen through every reference to it, behave as with the original's objects. A child list is a value, though: two elements never share one list object (see "Left out"). The class's methods are:
  - `appendChild`, `prependChild`, `removeChild`, `exchangeChild`, `remove`;
  - `removeWhitespace`, `trimRight`;
  - `setAttribute`, `removeAttribute`, `setAttributes`;
  - the element constructor.
- **Serialization**: `toString`, `innerHTML` and `rawText`.
- **Query**: the recursive `explore` behind `querySelectorAll`/`querySelector`, and both overloads of each. It also states what a selector of several segments selects, as paths of elements, and defines the corrected, document-ordered result.
- **QueryExamples**: one small tree on which `explore` lists its matches out of document order.
- **Parser**: `parse`, in two stages:
  - the markup scan over a stack of open elements, with implicit closing by an opening tag, raw-text elements and void elements;
  - the end-of-input repair of unclosed elements.
- **Content**: the `innerHTML` setter and `set_content`.

Every traversal relies on `Dom.Ordered`: each child's index is greater than its parent's. `parse` establishes this, and every editing method keeps it when the node it attaches is newer than its new parent.

## Model

| member | source | states |
|---|---|---|
| Strings.IndexOf | src/index.ts:939 | `indexOf(pat, from)`: the first occurrence at or after `from`, or -1 exactly when none exists |
| Strings.Substring | src/index.ts:903 | `substring(a, b)` with `0 <= a <= b <= length` is the slice `s[a..b]` |
| Strings.Prefix | src/index.ts:333 | `substr(0, n)` is a prefix of the text of length `min(n, length)` |
| Strings.LeadingSpace | src/index.ts:388 | the length of the maximal run of `\s` at the start |
| Strings.TrailingSpace | src/index.ts:388 | the length of the maximal run of `\s` at the end |
| Strings.TrimIsSlice | src/index.ts:388 | `Trim`, the model of `trim()`, is a slice of the input with only `\s` removed on either side; the result neither starts nor ends with `\s` |
| Strings.TrimBounds | src/index.ts:388 | the bounds of the trimmed slice, with only `\s` outside them |
| Strings.TrimIdempotent | src/index.ts:388 | trimming twice is trimming once |
| Strings.FirstSpace | src/index.ts:192 | the first `\s` at or after a position, with none before it |
| Strings.SplitWs | src/index.ts:192 | `split(/\s+/)` gives at least one token, and no token contains `\s` |
| Strings.SplitWsSingle | src/index.ts:192 | a string splits into itself exactly when it has no `\s` |
| Strings.SplitWsTokensShorter | src/index.ts:192 | no token is longer than the split string |
| Strings.SpaceRuns | src/index.ts:192 | the runs of `\s` the split cuts at, each non-empty and made only of `\s` |
| Strings.SplitWsRecompose | src/index.ts:192 | the split loses only the separators: there is one run of `\s` fewer than tokens, and the tokens joined by those runs give back the input |
| Strings.SplitWsInnerTokens | src/index.ts:192 | only the first and the last token can be empty |
| Strings.WhitespaceTextPrefixSpace | src/index.ts:83-85 | leading `\s` does not change the whitespace test |
| Strings.WhitespaceTextSuffixSpace | src/index.ts:83-85 | trailing `\s` keeps a whitespace-only text whitespace-only |
| Strings.AllSpaceIsWhitespaceText | src/index.ts:83-85 | a text of `\s` only passes the whitespace test |
| Strings.TrimKeepsWhitespaceText | src/index.ts:83-85 | trimming a text does not change whether it passes the whitespace test |
| Strings.ToLowerAscii | src/index.ts:920-921 | lower-casing changes exactly the ASCII capitals, position by position |
| Attributes.Keys | src/index.ts:600 | `Object.keys` lists one key per entry |
| Attributes.Get | src/index.ts:552-554 | a lookup misses exactly when the key is absent |
| Attributes.Set | src/index.ts:597 | an assignment makes the key map to the value and leaves every other key alone; keys stay distinct |
| Attributes.SetKeys | src/index.ts:597 | assigning to a present key keeps the key order |
| Attributes.SetAppends | src/index.ts:597 | assigning to an absent key appends it last |
| Attributes.Delete | src/index.ts:596 | `delete` removes the key, leaves every other key alone, and is a no-op on an absent key |
| Attributes.DeleteFirst | src/index.ts:621 | deleting the first key drops the first entry |
| Attributes.FromPairs | src/index.ts:566-571 | repeated assignments leave each key mapped to its last value, with distinct keys |
| Attributes.FromDistinctPairs | src/index.ts:566-571 | pairs with distinct keys build a dictionary equal to those pairs |
| Attributes.MapValues | src/index.ts:529-531 | mapping the values keeps the keys and their order, and maps each value |
| Attributes.MapValuesAppend | src/index.ts:529-531 | mapping distributes over appending an entry |
| Attributes.MapValuesIdentity | src/index.ts:529-531 | mapping with the identity changes nothing |
| Attributes.Refill | src/index.ts:620-627 | deleting every key and then assigning each new key in order leaves exactly the new entries, in order, with mapped values |
| Attributes.Encoded | src/index.ts:600 | the entries re-scanning a rebuilt string gives keep the keys and their order |
| Attributes.FindLetter | src/index.ts:835 | the next match of the attribute pattern starts at the first ASCII letter |
| Attributes.NameLen | src/index.ts:835 | an attribute name runs over the longest stretch of name characters |
| Attributes.ValueStart | src/index.ts:835 | a value starts after `\s*=\s*`, inside the text |
| Attributes.QuotedAt | src/index.ts:835 | a quoted value ends at the next matching quote |
| Attributes.ValuePart | src/index.ts:835 | the optional value part spans a non-empty stretch of the text |
| Attributes.MatchAttr | src/index.ts:835 | a match starts with its name, which is a valid attribute name |
| Attributes.ScanAttrs | src/index.ts:567-571 | every key `ScanFrom`, the `exec` loop, yields is a valid attribute name |
| Attributes.ParseRawAttributes | src/index.ts:560-574 | the `rawAttributes` getter maps each key to the last value the scan gave it, with distinct keys |
| Attributes.ScanAttrsSkipsSpace | src/index.ts:835 | leading whitespace does not change the scan |
| Attributes.MatchEntry | src/index.ts:600 | an `Entry` rebuilt by the setter, `k` or `k="v"`, is matched whole, and gives its key with its encoded value |
| Attributes.ScanEntry | src/index.ts:600 | scanning a rebuilt entry followed by more text gives that entry, then the scan of the rest |
| Attributes.ScanSerialized | src/index.ts:600 | scanning a `Serialize`d attribute string (the entries joined by spaces) gives back every entry, in order, with encoded values |
| Attributes.RawAttributesOfSerialized | src/index.ts:600 | the `rawAttributes` of a rebuilt string are the encoded entries it was rebuilt from |
| Attributes.IdClassKeyLen | src/index.ts:834 | a key of the id/class pattern is `id` or `class` in any case |
| Attributes.IdClassValue | src/index.ts:834 | an id/class value is never empty: an empty quoted value falls through to the bare branch |
| Attributes.IdClassKeyAt | src/index.ts:834 | a match whose key starts at a position ends after it |
| Attributes.IdClassAt | src/index.ts:834 | a match is anchored at the start of the string or after a `\s` character, and ends after its position |
| Attributes.IdClassScan | src/index.ts:183-187 | the id/class scan yields only non-empty values |
| Attributes.LastValueNonEmpty | src/index.ts:184-187 | the last value found for a key is never empty when no value found is |
| Attributes.IdOf | src/index.ts:183-190 | the constructor's `id` is empty exactly when the id/class pattern finds no `id` |
| Attributes.ClassNamesOf | src/index.ts:183-193 | the constructor's `classNames` is empty exactly when the pattern finds no `class`, and no class name holds `\s` |
| Selectors.ClassChecks | src/index.ts:725-729 | one check per class of the segment |
| Selectors.ClassChecksHold | src/index.ts:725-729 | the class checks hold exactly when the element has every class |
| Selectors.AllTestsHoldIff | src/index.ts:731-733 | the attribute check holds exactly when every attribute test holds |
| Selectors.SegmentAcceptsIff | src/index.ts:713-738 | `SegmentAccepts`, which runs every check of `ChecksOf`, accepts an element exactly when tag (unless empty or `*`), id (unless empty), every class and every attribute test match |
| Selectors.EmptySegmentAcceptsAll | src/index.ts:713-738 | a segment with no parts accepts every element |
| Selectors.AbsentAttribute | src/index.ts:743-777 | `AttrTestHolds` on a missing attribute: only the `!=` test holds |
| Selectors.ExistsIff | src/index.ts:774-775 | `AttrTestHolds` for the bare `[key]` test holds exactly when the attribute is present |
| Selectors.DashMatchIff | src/index.ts:764-768 | the dash-match operator holds exactly when the value equals the operand or starts with the operand and `-` |
| Selectors.IncludesSingleToken | src/index.ts:769-773 | `~=` on a value without whitespace is equality |
| Selectors.IncludesRejectsSpacedOperand | src/index.ts:769-773 | `~=` with an operand holding whitespace never holds |
| Matching.Step | src/index.ts:784-790 | offering an element moves the cursor one further exactly when the segment under it accepts the element |
| Matching.StepsStayInRange | src/index.ts:784-790 | a cursor within the chain stays within it, and moves at most once per element |
| Matching.MatchedIsFinal | src/index.ts:784-804 | once every segment has matched (`Matcher.Matched`, the `matched` getter), no element moves the cursor |
| Matching.Matcher.constructor | src/index.ts:659-661 | a new matcher holds the segments and its cursor is at the start |
| Matching.Matcher.Advance | src/index.ts:784-790 | the cursor moves one further and the result is true exactly when it was within the chain and its segment accepts the element |
| Matching.Matcher.Rewind | src/index.ts:795-797 | the cursor moves one back |
| Matching.Matcher.Reset | src/index.ts:810-812 | the cursor returns to the start and the segments are kept |
| Matching.Matcher.Clone | src/index.ts:824-829 | a fresh matcher with the same segments and cursor |
| Matching.AdvanceThenRewind | src/index.ts:426-436 | a rewind after a successful advance restores the cursor |
| Matching.AdvanceClone | src/index.ts:437-441 | advancing a clone leaves the original's cursor unchanged |
| Matching.AdvanceWhenMatched | src/index.ts:784-804 | once `matched` holds, `advance` accepts no element and `matched` keeps holding |
| Dom.WithChildren | src/index.ts:200-202 | replacing a child list keeps every node's kind |
| Dom.WithParent | src/index.ts:203 | setting a parent keeps every node's kind |
| Dom.Without | src/index.ts:200-202 | the filtered list holds every other child and every copy of the removed one is gone |
| Dom.WithoutAppend | src/index.ts:200-202 | filtering keeps the order of the remaining children |
| Dom.WithoutAbsent | src/index.ts:200-202 | removing a non-child leaves the list unchanged |
| Dom.FindIndex | src/index.ts:211 | `findIndex` gives the first position of the child, or -1 exactly when it is absent |
| Dom.ElementChildren | src/index.ts:274-276 | `children` are exactly the element children |
| Dom.ElementChildrenAppend | src/index.ts:274-276 | the element children of two lists joined are those of each list, joined, so the order is kept |
| Dom.FirstChild | src/index.ts:508-510 | the first child, absent exactly when there are no children |
| Dom.LastChild | src/index.ts:516-518 | the last child, absent exactly when there are no children |
| Dom.RawAttributesOf | src/index.ts:560-574 | the raw dictionary, from the cache or by scanning, has distinct keys |
| Dom.AttributesOf | src/index.ts:524-531 | the decoded dictionary has the raw dictionary's keys in their order |
| Dom.SetAttributeNode | src/index.ts:581-601 | after `setAttribute(key, value)`, `getAttribute(key)` is the value and no other key changes; the raw cache holds the encoded value; `id`/`classNames` follow a key of `id`/`class`; `rawAttrs` is rebuilt from the decoded dictionary |
| Dom.SetAttributesNode | src/index.ts:611-632 | after `setAttributes(d)`, `getAttribute(k)` is `d`'s value for every `k`; the raw cache holds the encoded values; `rawAttrs` is rebuilt from `d` |
| Dom.SetAttributesProjection | src/index.ts:613-619 | `id` follows a non-empty `id`; otherwise `classNames` follows a non-empty `class`; otherwise neither changes |
| Dom.Kept | src/index.ts:377-392 | the children `removeWhitespace` keeps are exactly those that are not whitespace-only text |
| Dom.CompactPrefix | src/index.ts:384-389 | the kept list grows child by child, in the original order |
| Dom.CompactFinish | src/index.ts:390 | truncating the list at the write cursor leaves the kept children, trimmed, and nothing whitespace-only |
| Dom.KeptTwice | src/index.ts:377-392 | cleaning a list that was already cleaned keeps it as it is |
| Dom.KeptTrimmed | src/index.ts:381-383 | trimming texts does not change which children are kept |
| Dom.ListsKeptTrans | src/index.ts:385-386 | after a further recursive clean, every other element's list is still either untouched or cut to its kept children |
| Dom.CleanedStays | src/index.ts:385-386 | a subtree already cleaned stays cleaned while later siblings are cleaned, since those only trim texts and cut lists to their kept children |
| Dom.CleanedUpToWrite | src/index.ts:388 | writing the parent's own list leaves every child cleaned so far cleaned |
| Dom.CleanedCut | src/index.ts:390 | once every old child is cleaned, a list of those children that are neither whitespace-only nor untrimmed leaves the parent `Cleaned` |
| Dom.Document.CompactChild | src/index.ts:379-389 | one pass of the loop: the kept prefix grows by the child exactly when the child is kept, the children seen so far are all cleaned, and nothing outside the element's subtree changes |
| Dom.Document.KeepChild | src/index.ts:384-388 | a kept child, trimmed or cleaned below, is written at the write cursor, and the cursor moves one on; nothing outside the element's subtree changes |
| Dom.Document.CleanChild | src/index.ts:381-386 | a kept text is trimmed, a kept element cleaned recursively; the child is then cleaned, the lists stay kept, and nothing outside the element's subtree changes |
| Dom.KeptWritten | src/index.ts:388 | writing the cleaned child at the write cursor keeps the compaction state, the lists kept, the children cleaned and the frame |
| Dom.Document.CutToKept | src/index.ts:390 | truncating the list at the write cursor leaves exactly the kept children, trimmed and none whitespace-only, and the element `Cleaned`; nothing outside its subtree changes |
| Dom.TrimTextAt | src/index.ts:388 | the text node's value becomes its trimmed value and every other node is unchanged |
| Dom.CutLeafAt | src/index.ts:333 | the text or comment keeps its kind and its value becomes a prefix of the old one |
| Dom.CutFinish | src/index.ts:327-342 | a child list that was cut ends with the text or comment node that was cut |
| Dom.Document.CutChild | src/index.ts:328-341 | one pass of the loop keeps the invariant: lists are prefixes and leaves prefixes, a shortened list ends right after the text or comment just cut, and with no hit nothing changes |
| Dom.Document.NewElement | src/index.ts:178-194 | a new element with no children, whose `id` and `classNames` are the id/class projection of its raw attributes |
| Dom.Document.NewText | src/index.ts:64-67 | a new text node holding the value |
| Dom.Document.NewComment | src/index.ts:98-101 | a new comment node holding the value |
| Dom.Document.AppendChild | src/index.ts:483-489 | the node is added last to the child list and becomes the child's parent, with nothing else changed; the order invariant is kept |
| Dom.Document.PrependChild | src/index.ts:496-502 | the node is added first to the child list and becomes the child's parent, with nothing else changed |
| Dom.Document.RemoveChild | src/index.ts:199-204 | every copy of the child leaves the list and the child's parent is cleared |
| Dom.Document.ExchangeChild | src/index.ts:210-216 | the first occurrence of the old child is replaced and its parent cleared; nothing changes when the old child is absent |
| Dom.Document.Remove | src/index.ts:53-56 | an element with a parent leaves that parent's list; any other node is untouched |
| Dom.Document.RemoveWhitespace | src/index.ts:377-392 | the children become the kept children in order, texts trimmed and none whitespace-only; the whole subtree is cleaned the same way (`Cleaned`); every node outside the element's subtree is unchanged (`SameOutside`); inside it an element's list is either untouched or cut to its own kept children (`ListsKept`), and no other change is made but trimming texts |
| Dom.InSubtreeShrinks | src/index.ts:377-392 | lists cut to their kept children hold no new node, so a subtree below the element being cleaned can only lose nodes |
| Dom.SameOutsideChild | src/index.ts:385 | the recursive call on a child changes nothing outside the parent's subtree |
| Dom.SameOutsideAt | src/index.ts:383-388 | a change to one node of the subtree (a trimmed text, a list written) changes nothing outside it |
| Dom.Document.TrimRight | src/index.ts:327-342 | leaves become prefixes of their old values, lists become prefixes, and a list is cut only right after a text or comment; with no hit anywhere nothing changes |
| Dom.Document.SetAttribute | src/index.ts:581-601 | the element becomes `SetAttributeNode` of the old one and `getAttribute(key)` is the value; nothing else changes |
| Dom.Document.RemoveAttribute | src/index.ts:603-605 | the key is absent from both dictionaries afterwards |
| Dom.Document.SetAttributes | src/index.ts:611-632 | the element becomes `SetAttributesNode` of the old one and its attributes are exactly the given ones |
| Serialization.AttrSuffix | src/index.ts:282 | the attribute part is empty exactly when the raw attribute string is |
| Serialization.RootRendersChildren | src/index.ts:278-291 | `ToString` of an element with an empty tag is its `InnerHTML` |
| Serialization.SelfClosedIgnoresChildren | src/index.ts:281-285 | `ToString` of an element whose tag is `SelfClosed` is `<tag attrs />` whatever its children |
| Serialization.SelfClosedIgnoresCase | src/index.ts:281 | `SelfClosed` ignores ASCII case |
| Serialization.TextChildrenInnerIsRaw | src/index.ts:221-226 | with only text children, `InnerHTML` (the `ChildrenHTML` of every child) and `RawText` (the `ChildrenText` of every child) agree |
| Serialization.AppendRendering | src/index.ts:294-298 | after `appendChild`, `InnerHTML` and `RawText` gain the child's `ToString` and `RawText` at the end |
| Serialization.PrependRendering | src/index.ts:294-298 | after `prependChild`, `InnerHTML` and `RawText` gain the child's `ToString` and `RawText` at the front |
| Serialization.RenderingFrame | src/index.ts:221-298 | `ToString` and `RawText` read only tags, raw attribute strings, child lists and leaf values |
| Query.Kids | src/index.ts:274-276 | the element children, all newer than the element |
| Query.Offer | src/index.ts:426 | an element with a tag moves the cursor exactly when the segment under it accepts the element; the root never does |
| Query.Preorder | src/index.ts:420-460 | the document-order list of elements of a subtree |
| Query.FilterAppend | src/index.ts:420-460 | filtering distributes over concatenation |
| Query.SingleSegmentAll | src/index.ts:420-460 | with one segment, `explore` lists the matching elements of the subtree in document order |
| Query.SingleSegmentFirst | src/index.ts:420-460 | with one segment, the first-match `explore` returns the first matching element in document order |
| Query.ExploreAllSound | src/index.ts:420-450 | every element `ExploreAll` lists lies in the subtree and matches the last segment |
| Query.FirstIsListed | src/index.ts:420-460 | the first-match search returns an element that the all-matches search also lists |
| Query.ExploreAllCases | src/index.ts:426-442 | `ExploreAll` lists an element exactly when it is the node itself and the node advances the cursor to the end of the chain, or the children list it at the same cursor (the rewound or never-advanced one), or the node advances the cursor short of the end and the children list it at the advanced cursor |
| Query.LeadsListed | src/index.ts:420-450 | every path that `Leads` from the node to an element is followed: the element is listed |
| Query.ListedLeads | src/index.ts:420-450 | every listed element is reached by a path that `Leads` to it: a chain of elements, each a child of the one before, in which the segments before the last pick elements in order and the last segment selects the element itself |
| Query.ExploreAllMeaning | src/index.ts:420-450 | from the start of the chain, `ExploreAll` lists an element exactly when it lies in the subtree and the selector `Reaches` it: the meaning of a descendant chain of any length |
| Query.AllOfHas | src/index.ts:442 | whatever `ExploreAll` lists below one child, `AllOf` (the flattened map over the children) lists |
| Query.AllOfFrom | src/index.ts:442 | whatever `AllOf` lists, `ExploreAll` lists below some child |
| Query.AllOfLater | src/index.ts:434-442 | what the children list with the cursor at one segment they also list with it one segment later, while that is still short of the end |
| Query.FirstNoneIffEmpty | src/index.ts:430-453 | `ExploreFirst` finds nothing exactly when `ExploreAll` lists nothing |
| Query.FirstOfNoneIffEmpty | src/index.ts:445-449 | `FirstOf`, the loop over the children, finds nothing exactly when `AllOf` lists nothing |
| Query.FirstIsEarliest | src/index.ts:420-453 | `ExploreFirst` returns the earliest element, in document order, of those `ExploreAll` lists, when no element occurs twice in the subtree |
| Query.FirstOfIsEarliest | src/index.ts:445-449 | `FirstOf` returns the earliest element, in document order, of those `AllOf` lists |
| Query.Among | src/index.ts:408-409 | the entries of one list that a second list holds, kept in the order of the first |
| Query.AmongAppend | src/index.ts:408-409 | taking from two lists joined is taking from each, joined |
| Query.AmongDistinct | src/index.ts:408-409 | taking from a list without repeats gives a list without repeats |
| Query.AmongOrder | src/index.ts:408-409 | the entries taken keep their order in the first list |
| Query.InDocumentOrder | src/index.ts:400-410 | the result `querySelectorAll` is meant to give: exactly the elements `explore` lists, all in the subtree |
| Query.InDocumentOrderSorted | src/index.ts:400-410 | that result has no repeats, follows document order, holds exactly the subtree's elements the selector `Reaches`, and starts with what the first-match `explore` returns |
| Query.Dedup | src/index.ts:408-409 | `Array.from(new Set(..))` keeps exactly the listed elements, once each |
| Query.DedupDistinct | src/index.ts:408-409 | a list without repeats is unchanged |
| Query.FirstIndex | src/index.ts:408-409 | the first position of an element in a list |
| Query.DedupOrder | src/index.ts:408-409 | the kept elements come in the order of their first occurrences; with `Dedup`'s membership and no-repeat clauses this fixes the result |
| Query.FilterDistinct | src/index.ts:420-460 | filtering a list without repeats gives a list without repeats, drawn from the input |
| Query.OnePartInDocumentOrder | src/index.ts:406-410 | for one part of one segment, the string overload lists exactly the selected elements of the subtree, in document order, when no element occurs twice in the subtree |
| Query.AllPartsMembers | src/index.ts:407-408 | an element is in `AllParts`, the concatenated results of the parts, exactly when some part's `ExploreAll` lists it |
| Query.QuerySelectorAllMembers | src/index.ts:406-410 | the string overload has no repeats and lists exactly the elements some comma part finds |
| Query.QuerySelector | src/index.ts:468-475 | the parts are tried in order: none when every part misses, else the first hit of the first part that hits, which the string `querySelectorAll` also lists |
| Query.PartHitListed | src/index.ts:468-475 | a part's first hit is listed by the string `querySelectorAll` |
| Query.QuerySelectorAllWith | src/index.ts:400-405 | the matcher overload resets the matcher and returns what `explore` lists from the element |
| Query.QuerySelectorWith | src/index.ts:462-467 | the matcher overload resets the matcher and returns the first-match `explore` |
| Query.NestedTagsRepeat | src/index.ts:434-440 | `a b` over `<a><a><b></b></a></a>` lists the same `b` twice |
| QueryExamples.ForkedOutOfOrder | src/index.ts:434-442 | `a b` over `<a><b></b><a><b></b></a></a>`: `explore` lists the inner `b`, the outer `b`, then the inner `b` again; the de-duplicated result is the inner `b` before the outer one, while `InDocumentOrder` puts the outer `b` first |
| Query.AllOfOne | src/index.ts:434-440 | exploring a single child is exploring that child |
| Query.DistinctMatches | src/index.ts:400-410 | the matches of one selector, each once |
| Query.DistinctMatchesIsStringOverload | src/index.ts:406-410 | the de-duplicated matches are what `QuerySelectorAll`, the string overload, returns for a single part |
| Parser.ClosedByOpening | src/index.ts:848-878 | the table of tags a start tag implicitly closes; the root's empty tag closes nothing |
| Parser.RawTextNotVoid | src/index.ts:836-847 | no raw-text tag is void, so a raw-text element's closing pops it |
| Parser.CloseMarkup | src/index.ts:938 | the close markup is `</tag>` |
| Parser.RawTextEnd | src/index.ts:939 | the first `</tag>` at or after the position, or -1 when there is none |
| Parser.CommentText | src/index.ts:914 | a kept comment is the text between `<!--` and `-->` |
| Parser.TagName | src/index.ts:920-921 | the tag name keeps its length and is untouched without `lowerCaseTagName` |
| Parser.ClosedHeight | src/index.ts:973-990 | the close loop pops to below the nearest open element with the tag, or to the root when none has it |
| Parser.ClosesNearest | src/index.ts:973-978 | the close loop stops at the topmost open element with the tag |
| Parser.ClosesToBottom | src/index.ts:979-989 | an end tag that matches nothing open pops every element |
| Parser.CloseTo | src/index.ts:973-990 | the stack after the close loop |
| Parser.ImplicitHeight | src/index.ts:925-931 | an opening tag pops at most the open element, and never the root |
| Parser.ImplicitClose | src/index.ts:925-931 | the stack after the implicit close |
| Parser.RawText | src/index.ts:941-947 | a raw-text element's content runs to its end tag, or to the end of the input |
| Parser.ResumeAt | src/index.ts:953-957 | the scan resumes after the end tag, or past the input |
| Parser.ChainPush | src/index.ts:933-935 | pushing a new child of the open element keeps the stack a parent chain |
| Parser.AppendLeaf | src/index.ts:905 | a new leaf is appended to the open element and nothing else changes |
| Parser.PushElement | src/index.ts:933-935 | a new element with the trimmed attribute string becomes the open element's last child and is pushed |
| Parser.TakeRawText | src/index.ts:936-959 | a kept non-empty raw text becomes the only child; the scan position and the closing flag follow the end tag |
| Parser.EndTag | src/index.ts:963-991 | a void end tag is ignored, any other pops with the close loop |
| Parser.CloseAfterStart | src/index.ts:964-991 | a self-closing, void or closed raw-text start tag pops itself again |
| Parser.StartTag | src/index.ts:924-991 | implicit close, then the new element, then its raw text and closing |
| Parser.AddLeaf | src/index.ts:902-906 | the text before a match goes to the open element |
| Parser.ScanStep | src/index.ts:899-992 | one match keeps the stack a parent chain and moves the position past the match; the text before the match becomes the open element's last child |
| Parser.MarkupStep | src/index.ts:911-991 | one piece of markup keeps the stack a parent chain |
| Parser.Scan | src/index.ts:899-992 | the scan keeps the stack a parent chain from the root; without markup it changes nothing; the elements it creates follow `ParseOutline`: the k-th has the outline's tag and parent and is listed among its parent's children (`Nested`), and the stack holds the outline's open elements |
| Parser.NestedGrows | src/index.ts:902-906 | appending to child lists keeps every element listed where it was |
| Parser.NestedOpen | src/index.ts:933-935 | `currentParent.appendChild(new HTMLElement(..))`: the new element is listed among the children of the open element it was appended to |
| Parser.NestedScanStep | src/index.ts:899-992 | one scan step keeps every created element listed under its outline parent, for the outline after the step |
| Parser.OpenTags | src/index.ts:973-990 | the tags of the open elements, bottom first, with the root's empty tag at the bottom |
| Parser.OutlineStep | src/index.ts:911-991 | one match as values: exactly a start tag adds one element (a comment or end tag adds none); earlier tags and parents never change; every parent precedes its child and the root stays open at the bottom; the scan resumes at or after the match's end |
| Parser.ScanOutline | src/index.ts:899-992 | the matches applied in turn from a position: elements are only added, and earlier tags and parents never change |
| Parser.ParseOutline | src/index.ts:892-992 | the outline of the whole scan, from the root alone: the root keeps the empty tag and stays open at the bottom, and every parent precedes its child |
| Parser.TrackedStep | src/index.ts:899-992 | one step of the scan moves the arena along `OutlineStep` for the same match and resumes where it says, keeping each element listed under its outline parent |
| Parser.NewRoot | src/index.ts:893 | a new element with the empty tag, no attributes, no children and no parent is appended to the arena |
| Parser.TrailingText | src/index.ts:995-998 | the text after the last match becomes the root's last child; nothing else changes |
| Parser.RepairedOutline | src/index.ts:1000-1026 | after the repair every element keeps the outline's tag and lies at or after the root; with nothing left open every element keeps the outline's parent and its place in the parent's list; the unclosed elements are the outline's open ones above the root |
| Parser.SplicedRepaired | src/index.ts:1002-1026 | a repair step changes no tag or attribute string, and only the elements it names |
| Parser.Splice | src/index.ts:1010-1021 | `removeChild` then the `appendChild` loop: the element leaves the holder's list and its parent is cleared, its children are appended to the target in order with the target as parent, and nothing else changes (`Spliced`) |
| Parser.Round | src/index.ts:1005-1024 | one step of the repair loop on the stack and the arena: a pop for the element under the root, a pair splice when the last two tags agree, a single splice otherwise |
| Parser.RoundUnique | src/index.ts:1005-1024 | a step has one outcome, so the rounds determine the repaired document |
| Parser.RoundPops | src/index.ts:1003-1024 | each step pops one or two entries and never the root, so the loop ends |
| Parser.RepairPair | src/index.ts:1007-1014 | a doubled tag: the inner element leaves its parent, its children move to the grandparent, and both are popped |
| Parser.RepairSingle | src/index.ts:1015-1022 | an unclosed element leaves its parent and its children move to that parent |
| Parser.RecoverStep | src/index.ts:1002-1026 | one repair step is a `Round`: it picks the pair or single case by tag, splices the last element out accordingly, and does nothing but pop for the element right under the root |
| Parser.Recover | src/index.ts:1000-1026 | the repair empties the stack down to the root and keeps every tag and attribute string; the document it leaves is the `Rounds` of the repair, one step after another from the stack given |
| Parser.Build | src/index.ts:893-998 | a new root with an empty tag; the earlier arena is untouched; input without markup becomes one text child; the elements follow `ParseOutline`, each listed among its outline parent's children |
| Parser.Finish | src/index.ts:1000-1026 | `valid` is set exactly when the outline leaves only the root open, the repair then runs; the elements keep the outline's tags, and on valid input the arena is untouched, so parents and lists stay as built |
| Parser.Parse | src/index.ts:892-1028 | a root with an empty tag and no parent; `valid` holds exactly when `ParseOutline` leaves only the root open; every element created has the outline's tag, and on valid input the outline's parent; every element created lies at or after the root and, on valid input, is listed among its outline parent's children (`Nested`); the unclosed elements are the outline's open ones; input without markup becomes one text child |
| ParserExamples.OpensInside | src/index.ts:924-935 | a start tag that the open element does not close opens a child of it |
| ParserExamples.OpensBeside | src/index.ts:925-935 | a start tag that the table lists for the open element closes it and opens a child of the element below |
| ParserExamples.OpensShut | src/index.ts:963-978 | a tag closed with `/>` becomes a child of the open element and is not left open |
| ParserExamples.ClosesOpen | src/index.ts:973-986 | an end tag closes the nearest open element with its name and everything above it |
| ParserExamples.ClosesNone | src/index.ts:973-990 | an end tag that names nothing open closes everything but the root |
| ParserExamples.OpensFirst | src/index.ts:924-935 | the first start tag opens a child of the root |
| ParserExamples.ScanOutlineNext | src/index.ts:899-992 | the scan's outline advances one match at a time |
| ParserExamples.SiblingParagraphs | test/html.test.ts:336-340 | `<p><p></p>` gives two paragraphs side by side under the root and leaves nothing open (valid) |
| ParserExamples.NestedSelfClosing | test/html.test.ts:342-346 | `<p><p/></p>` nests the second paragraph in the first and leaves nothing open (valid) |
| ParserExamples.HeadingAfterParagraph | test/html.test.ts:348-352 | `<p><h3></p>` puts the heading beside the paragraph under the root and leaves nothing open (valid) |
| ParserExamples.UnclosedDivisions | test/html.test.ts:376-380 | `<div data-id=1><h3 data-id=2><h3><div>`: the second heading is a sibling of the first inside the division, the last division is inside it, and three elements are left open (not valid) |
| ParserExamples.SiblingItems | src/index.ts:848-849 | `<ul><li>a<li>b</ul>`: the second item closes the first, both items are children of the list, and nothing is left open (valid) |
| Content.Owned | src/index.ts:302 | the children whose `remove()` takes them out: the elements whose parent is this element |
| Content.Detached | src/index.ts:53-56 | a node after the removals: same kind; its parent cleared when it is a removed child; its list without the removed children that named it; the rest unchanged |
| Content.DetachedStep | src/index.ts:302 | one more `remove()` takes the `Detached` arena for the first children to that for one more |
| Content.ParseFragment | src/index.ts:301 | `parse(content)` adds its nodes at the end of the arena and changes no node already there; what it adds is a `Fragment` of the content: without markup the root holds one text child with the string (none for the empty string); the k-th element created has the outline's k-th tag; when nothing is left open, the outline's top-level elements are the root's children |
| Content.FragmentKept | src/index.ts:301-304 | what the parse built stays a `Fragment` through later changes that keep the kinds, tags, child lists and leaves of its nodes |
| Content.ContentTextParsed | src/index.ts:310-314 | after `set_content`, the parsed fragment is intact, a content without markup becomes one text child holding it, and the top-level parsed elements are the element's children when nothing was left open |
| Content.TakeParsed | src/index.ts:312-314 | the element's list becomes the parse root's children, or one new text node with the string when there are none; no other old node changes |
| Content.SetterFrame | src/index.ts:300-304 | after the removals, the parse and the appends, the element differs from before only in its list, every other old node is its `Detached` form, the appended nodes have the element as parent, and every parsed node keeps its kind, tag, list and leaf |
| Content.Unremoved | src/index.ts:302 | the children left after those removals, in order |
| Content.WithoutUnremoved | src/index.ts:302 | one more removal removes one more child |
| Content.UnremovedNone | src/index.ts:302 | with nothing removed the list is unchanged |
| Content.RemoveChildren | src/index.ts:302 | the child list becomes the children not owned by the element, so text and comment children stay; every node becomes its `Detached` form: the removed elements lose their parent, each parent's list loses exactly the entries of removed elements that named it, and nothing else changes |
| Content.AppendAll | src/index.ts:303 | the parsed children are appended in order, and they alone change: their parent becomes the element (`Adopted`) |
| Content.SetInnerHTML | src/index.ts:300-304 | the children become the unremoved old children followed by the parsed ones; the parse is a `Fragment` of the content: without markup the new children are the text holding it (none for the empty string), every parsed element has the outline's tag, and with nothing left open the outline's top-level elements become the element's children; the element keeps its other fields, every older node is its `Detached` form, and the parsed children have the element as parent |
| Content.LeavesStay | src/index.ts:302 | every text or comment child survives the removal loop |
| Content.TextSurvivesInnerHTML | src/index.ts:300-304 | `<div>hello</div>` keeps the text `hello` in front of the parsed children |
| Content.ReplaceInnerHTML | src/index.ts:300-304 | the setter as intended: the children are exactly the parsed children, which are one text holding the content when it has no markup, and include the outline's top-level elements when nothing is left open; same frame as `SetInnerHTML` |
| Content.SetContentNodes | src/index.ts:307-309 | the child list becomes the given nodes, whose parents are not updated |
| Content.SetContentText | src/index.ts:310-314 | the children become the parsed children, or one text node holding the string when the parse yields none; without markup that is one text holding the string; every parsed element has the outline's tag, and with nothing left open the outline's top-level elements become the children; the element keeps its other fields and no older node changes |

## Left out

- Dom.Document.TrimRight: states where cuts may happen, not where they do. Leaves become prefixes, lists become prefixes, and a list is cut only after a leaf. It does not name the exact offset returned by `search`.
- Dom.Document.TrimRight: the regular expression is a parameter `search: string -> Option<nat>` standing for `rawText.search(pattern)`.
- Parser.Parse: describes the tree built from input with markup through `ParseOutline`, which records each element's tag and parent and the elements left open. It does not record text and comment nodes or attribute strings; `AddLeaf`, `TakeRawText` and `StartTag` state those step by step. After the repair of invalid input, only the tags and the unclosed elements are stated; the moves the repair makes are stated by `RepairPair` and `RepairSingle`.
- Content.SetInnerHTML, Content.ReplaceInnerHTML and Content.SetContentText: when the content leaves elements unclosed, the repair moves children between them; the parsed elements are then stated through their tags only, not through where they end up.
- Parser.ScanStep and Parser.MarkupStep: state the parent-chain invariant and the scan position; their effect on elements is stated through `TrackedStep` and `OutlineStep`.
- ParserExamples: each example takes as hypotheses the matches the markup expression finds in its string, because the expression is not modelled.
- Parser.Scan: the markup regular expression (`src/index.ts:833`) is not modelled. A `Scanner` function gives the next match. `ScannerSound` states what the expression guarantees:
  - a match lies ahead;
  - a match is inside the input;
  - a tag name is non-empty;
  - a comment spans at least `<!---->`.

  The expression's exact language is not modelled.
- Parser.TagName: lower-cases ASCII letters only. The markup pattern admits only ASCII tag names, and without the `u` flag a case-insensitive class never folds a non-ASCII character onto an ASCII one.
- Parser.TakeRawText: `noscript` content is never kept, because the options type has no `noscript` entry. The model follows the code here.
- Matching.Matcher.Advance: requires a non-negative cursor. The source only rewinds right after a successful advance, so its cursor is never negative.
- Selector compilation (`parseCompleteSelector` and `parseAttributes`, `src/index.ts:666-712`) is not modelled. Segments are given as values, and so is the string overloads' comma splitting and trimming.
- Query.QuerySelector: takes the parts already split at commas, trimmed and filtered.
- The HTML entity decoder and encoder are a parameter (`Dom.Codec`) and are not modelled.
- JavaScript objects are modelled as insertion-ordered lists. Two behaviours are left out:
  - integer-like keys, which JavaScript enumerates first in numeric order;
  - prototype keys such as `constructor` or `toString`. In the tag tables these read as present.
- The attribute caches are modelled as optional dictionaries filled when read or written. Their laziness and sharing are not modelled.
- These members are not modelled, because they are not part of the core:
  - `text`, `structuredText`, `structure`, `outerHTML` (an alias of `toString`), `toJSON`;
  - the attributes' `Symbol.iterator`, `Matcher.level`, `isBlock`;
  - the `debug` logging.
- Content.SetContentNodes and Content.SetContentText: the source stores the given array itself as the child list (`src/index.ts:314`). A later change through the element then shows through the caller's array, or through the parse's root. The model copies the list, so this sharing is not modelled.
- Return values that are only the receiver or the argument (`return this`, `return node`) are not modelled.
- Cycles: each child index is greater than its parent index. This is stronger than acyclicity, and the source does not enforce it. The traversals need it to terminate. Appending an older node under a newer one is allowed but loses the guarantee.

## Findings

| source | as written | input that shows it | evidently intended | confidence | as-written member | corrected member |
|---|---|---|---|---|---|---|
| src/index.ts:400-405 | `querySelectorAll(matcher)` returns the raw `explore` list. When an element matches the same segment at two cursor values, it is listed twice | selector `a b` over `<a><a><b></b></a></a>` gives `[b, b]` | each element once, as the string overload returns after `new Set` | not executed | Query.NestedTagsRepeat | Query.DistinctMatches |
| src/index.ts:300-304 | the setter calls `remove()` on each old child. A text or comment child has no parent, so it stays in the list, in front of the parsed children | `<div>hello</div>` after `innerHTML = '<b>x</b>'` gives `<div>hello<b>x</b></div>` | the children become exactly the parsed children | not executed | Content.TextSurvivesInnerHTML | Content.ReplaceInnerHTML |
| src/index.ts:434-442 | below an element that advances the cursor, `explore` lists the matches found with the rewound cursor before those found with the advanced one, so a match deeper in the tree can come before an earlier one | selector `a b` over `<a><b></b><a><b></b></a></a>` lists the inner `b`, the outer `b`, then the inner `b`; `querySelectorAll` returns the inner `b` before the outer one | the matches in document order, as `querySelector` finds the first of them | not executed | QueryExamples.ForkedOutOfOrder | Query.InDocumentOrderSorted |
