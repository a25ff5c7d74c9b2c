# Selection and `<rtc>` display model

A Dafny model of two pieces of a headless browser's script host layer:

- **`Selection`**, the object `window.getSelection()` returns. It keeps the page's
  list of selection ranges and a type that is `None`, `Caret` or `Range`. The
  script-visible operations (`addRange`, `removeRange`, `removeAllRanges`, `empty`,
  `collapse`, `collapseToStart`, `collapseToEnd`, `extend`, `selectAllChildren`)
  change the list and the type in place; the queries (`rangeCount`, `isCollapsed`,
  `getRangeAt`, `anchorNode`/`anchorOffset`, `focusNode`/`focusOffset`, `type`)
  read them. The "first" and "last" range are chosen by a linear scan that
  compares start containers by document position.
- **`HtmlRtc`**, the ruby text container element, whose default CSS display
  depends on a browser feature flag, on whether script created the element and on
  whether it has a parent.

## Files

- `wrappers.dfy` — `Option` (Java `null`) and `Result` (a value or a script exception).
- `simple_range.dfy` — module `SimpleRanges`: nodes by identity, the
  `compareDocumentPosition` bit flags, and the `SimpleRange` value with
  `collapse`, `setEnd` and its two constructors.
- `selection_model.dfy` — module `SelectionModel`: the selection as a value
  (`SelectionState`), one `Apply` transition per operation, `Run` over a sequence
  of operations, the first/last scan, `List.remove` semantics, the queries, and
  the lemmas.
- `selection.dfy` — module `HostDom`: class `Selection` with fields `ranges` and
  `typ`. Each operation is a method that changes those fields in place and states
  the new state both directly and as `Apply` of the old state, so every lemma of
  `SelectionModel` applies to it. The first/last helpers are loops over a copy of
  the list, proved equal to the scan function.
- `html_rtc.dfy` — module `Html`: class `HtmlRtc` with its provenance flag and
  the default-display rule.

## Modelling choices

- The document-position comparison is a parameter `compare: (NodeRef, NodeRef) -> bv16`
  standing for `a.compareDocumentPosition(b)`, and the scans test the PRECEDING (0x02)
  and FOLLOWING (0x04) bits as the code does. Nothing is assumed about it: nodes may be
  unrelated, and the reports need not be consistent. Only `ScanFindsExtreme` assumes
  that the reports form a strict order.
- The first/last helpers return the position of the chosen range in the list. A
  position stands for the range object the Java helper returns. Mutating that object
  in place (`collapse`, `setEnd`) becomes replacing the list element at that position.
- `new SimpleRange(node)` (used by `selectAllChildren`) spans offsets 0 to the node's
  maximum offset. That offset is a parameter `maxOffset`: the child count, or the
  text length of a text node.
- A new `Selection` takes the page's current range list and has type `None`.
  So "type None implies no range" is proved to be preserved by every operation,
  and not to hold from construction.

The model follows the code where it differs from what the operations' names
suggest:

- `collapseToStart` and `collapseToEnd` set the type to `Caret` even when there is
  no range; the list stays empty (`CollapseToStartOnNoRanges`). So "no range implies
  type None" is not an invariant. The converse, "type None implies no range", is
  one (`RunKeepsNoneMeansEmpty`).
- `addRange` of a collapsed range onto a selection of type `None` gives `Range`,
  not `Caret`. Adding a collapsed range to a `Caret` selection keeps `Caret` with
  two ranges, and that selection is then not collapsed (`AddRangeTypeRule`).
- `collapseToStart` keeps the first range by document position, while the anchor
  is read from the last range. With several ranges the anchor therefore moves to
  the start of the first range. With a single range it does not move
  (`CollapseToStartKeepsFirstStart`).

## Model

| member | source | states |
|---|---|---|
| `HostDom.Selection.constructor` | src/main/java/org/htmlunit/javascript/host/dom/Selection.java:45 | a new selection has type None over the page's current ranges |
| `HostDom.Selection.GetFirstRange` | src/main/java/org/htmlunit/javascript/host/dom/Selection.java:319-337 | the loop over a copy of the list returns exactly what the first-range scan selects: nothing iff the list is empty, otherwise a position in the list; the list is not modified |
| `HostDom.Selection.GetLastRange` | src/main/java/org/htmlunit/javascript/host/dom/Selection.java:343-361 | the same for the last-range scan (FOLLOWING bit) |
| `HostDom.Selection.GetAnchorNode` | src/main/java/org/htmlunit/javascript/host/dom/Selection.java:84-90 | start container of the last range, null iff there is no range |
| `HostDom.Selection.GetAnchorOffset` | src/main/java/org/htmlunit/javascript/host/dom/Selection.java:97-103 | start offset of the last range, 0 when there is no range |
| `HostDom.Selection.GetFocusNode` | src/main/java/org/htmlunit/javascript/host/dom/Selection.java:110-116 | end container of the last range, null iff there is no range |
| `HostDom.Selection.GetFocusOffset` | src/main/java/org/htmlunit/javascript/host/dom/Selection.java:123-129 | end offset of the last range, 0 when there is no range |
| `HostDom.Selection.IsIsCollapsed` | src/main/java/org/htmlunit/javascript/host/dom/Selection.java:136-139 | true iff there is no range, or exactly one range and it is collapsed |
| `HostDom.Selection.GetRangeCount` | src/main/java/org/htmlunit/javascript/host/dom/Selection.java:146-148 | the number of ranges in the list |
| `HostDom.Selection.GetType` | src/main/java/org/htmlunit/javascript/host/dom/Selection.java:154-157 | the name of the current type |
| `HostDom.Selection.GetRangeAt` | src/main/java/org/htmlunit/javascript/host/dom/Selection.java:204-216 | the range at the index for 0 <= index < count; an INDEX_SIZE_ERR exception carrying the index for any negative index or index >= count; nothing changes |
| `HostDom.Selection.AddRange` | src/main/java/org/htmlunit/javascript/host/dom/Selection.java:164-172 | appends the range after the unchanged earlier ones; type stays Caret only if it was Caret and the range is collapsed, otherwise becomes Range |
| `HostDom.Selection.RemoveRange` | src/main/java/org/htmlunit/javascript/host/dom/Selection.java:179-185 | removes the first range equal to the argument, keeping the order of the rest; type becomes None iff no range remains, otherwise is unchanged |
| `HostDom.Selection.RemoveAllRanges` | src/main/java/org/htmlunit/javascript/host/dom/Selection.java:191-195 | no range and type None |
| `HostDom.Selection.Empty` | src/main/java/org/htmlunit/javascript/host/dom/Selection.java:268-270 | the same state as removeAllRanges |
| `HostDom.Selection.Collapse` | src/main/java/org/htmlunit/javascript/host/dom/Selection.java:224-230 | exactly one range, collapsed at (node, offset), type Caret, whatever the state before |
| `HostDom.Selection.CollapseToEnd` | src/main/java/org/htmlunit/javascript/host/dom/Selection.java:236-246 | with ranges: only the last range by document position remains, collapsed onto its end; without: the list stays empty; type Caret in both cases |
| `HostDom.Selection.CollapseToStart` | src/main/java/org/htmlunit/javascript/host/dom/Selection.java:252-262 | with ranges: only the first range by document position remains, collapsed onto its start; without: the list stays empty; type Caret in both cases |
| `HostDom.Selection.Extend` | src/main/java/org/htmlunit/javascript/host/dom/Selection.java:278-285 | with no range nothing changes, type included; otherwise only the last range's end moves to (node, offset), the length is unchanged and type becomes Range |
| `HostDom.Selection.SelectAllChildren` | src/main/java/org/htmlunit/javascript/host/dom/Selection.java:292-304 | exactly one range over the node's contents; type Caret iff that range is collapsed (the node is empty), else Range |
| `SelectionModel.TypeNameInjective` | src/main/java/org/htmlunit/javascript/host/dom/Selection.java:41-45 | the three types are reported under three distinct names |
| `SelectionModel.Scan` | src/main/java/org/htmlunit/javascript/host/dom/Selection.java:319-361 | the scan yields nothing iff the list is empty, otherwise a position inside the list |
| `SelectionModel.FirstRange` | src/main/java/org/htmlunit/javascript/host/dom/Selection.java:319-337 | getFirstRange finds a range iff there is one, and it is an element of the list |
| `SelectionModel.LastRange` | src/main/java/org/htmlunit/javascript/host/dom/Selection.java:343-361 | getLastRange finds a range iff there is one, and it is an element of the list |
| `SelectionModel.ScanNotDisplacedLater` | src/main/java/org/htmlunit/javascript/host/dom/Selection.java:324-335 | no range after the chosen one is reported as preceding (resp. following) it: unrelated later ranges keep the earlier candidate |
| `SelectionModel.ScanMovesOnlyWhenReported` | src/main/java/org/htmlunit/javascript/host/dom/Selection.java:324-335 | a chosen range other than the first was reported as strictly preceding (resp. following) the candidate chosen from the ranges before it |
| `SelectionModel.ScanPicksFrontWhenNothingReported` | src/main/java/org/htmlunit/javascript/host/dom/Selection.java:323-336 | when no range is reported against an earlier one, the first range of the list is chosen |
| `SelectionModel.ScanFindsExtreme` | src/main/java/org/htmlunit/javascript/host/dom/Selection.java:315-337 | when the comparison's reports form a strict order, no range in the list is reported as preceding (resp. following) the chosen one |
| `SelectionModel.ScanReadsOnlyStarts` | src/main/java/org/htmlunit/javascript/host/dom/Selection.java:329-331 | the choice depends on start containers only, so moving a range's end never changes which range is first or last |
| `SelectionModel.IndexOf` | src/main/java/org/htmlunit/javascript/host/dom/Selection.java:180 | the position of the first element equal to the range |
| `SelectionModel.RemoveFirst` | src/main/java/org/htmlunit/javascript/host/dom/Selection.java:180 | List.remove: a list without the range is unchanged; otherwise exactly the first equal element is dropped and the rest keep their order |
| `SelectionModel.ApplyKeepsNoneMeansEmpty` | src/main/java/org/htmlunit/javascript/host/dom/Selection.java:159-304 | every operation keeps "type None implies no range"; all except removeRange and extend establish it from any state |
| `SelectionModel.RunKeepsNoneMeansEmpty` | src/main/java/org/htmlunit/javascript/host/dom/Selection.java:159-304 | "type None implies no range" holds after any sequence of operations that starts where it holds |
| `SelectionModel.ApplyKeepsNoneIffEmpty` | src/main/java/org/htmlunit/javascript/host/dom/Selection.java:159-304 | "type None iff no range" survives every operation except collapseToStart/collapseToEnd on a selection without ranges |
| `SelectionModel.RunKeepsNoneIffEmpty` | src/main/java/org/htmlunit/javascript/host/dom/Selection.java:159-304 | any sequence of operations without collapseToStart/collapseToEnd keeps "type None iff no range" |
| `SelectionModel.CollapseToStartOnNoRanges` | src/main/java/org/htmlunit/javascript/host/dom/Selection.java:252-262 | on a selection without ranges collapseToStart gives type Caret with no range, breaking "no range implies None" |
| `SelectionModel.RemovalsKeepType` | src/main/java/org/htmlunit/javascript/host/dom/Selection.java:179-185 | after any number of removeRange calls the type is the one before, or None with no range: removal never turns Range into Caret |
| `SelectionModel.RemovalsFromEmpty` | src/main/java/org/htmlunit/javascript/host/dom/Selection.java:179-185 | removing from an empty selection of type None changes nothing |
| `SelectionModel.AddRangeTypeRule` | src/main/java/org/htmlunit/javascript/host/dom/Selection.java:164-172 | a collapsed range added to a None selection gives Range; added to a Caret selection it keeps Caret with two ranges, which is not collapsed |
| `SelectionModel.CollapseLeavesCaret` | src/main/java/org/htmlunit/javascript/host/dom/Selection.java:224-230 | after collapse(node, offset): one collapsed range, type Caret, anchor and focus both at (node, offset) |
| `SelectionModel.CollapseToEndKeepsFocus` | src/main/java/org/htmlunit/javascript/host/dom/Selection.java:236-246 | with ranges, collapseToEnd moves the anchor onto the focus and the focus does not move |
| `SelectionModel.CollapseToStartKeepsFirstStart` | src/main/java/org/htmlunit/javascript/host/dom/Selection.java:252-262 | with ranges, the only boundary point left is the start of the first range; with one range the anchor does not move |
| `SelectionModel.CollapseToIdempotent` | src/main/java/org/htmlunit/javascript/host/dom/Selection.java:236-262 | collapseToStart and collapseToEnd applied twice give the state they give once |
| `SelectionModel.ExtendMovesFocusOnly` | src/main/java/org/htmlunit/javascript/host/dom/Selection.java:278-285 | with ranges, extend moves the focus to (node, offset), keeps the anchor and the number of ranges, and gives type Range |
| `SelectionModel.SelectAllChildrenCaretIffCollapsed` | src/main/java/org/htmlunit/javascript/host/dom/Selection.java:292-304 | after selectAllChildren there is one range; type Caret iff the selection is collapsed iff the node is empty |
| `Html.HtmlRtc.constructor` | src/main/java/org/htmlunit/html/HtmlRtc.java:32-44 | a new element is not marked as created by script |
| `Html.HtmlRtc.MarkAsCreatedByJavascript` | src/main/java/org/htmlunit/html/HtmlRtc.java:51-53 | the element is marked; marking a marked element changes nothing |
| `Html.HtmlRtc.WasCreatedByJavascript` | src/main/java/org/htmlunit/html/HtmlRtc.java:61-63 | reports whether the element was marked |
| `Html.HtmlRtc.GetDefaultStyleDisplay` | src/main/java/org/htmlunit/html/HtmlRtc.java:69-79 | the flag CSS_RT_DISPLAY_RUBY_TEXT_ALWAYS gives RUBY_TEXT_CONTAINER regardless of provenance or parent; without it, EMPTY iff the element was created by script and has no parent, INLINE otherwise; reads no state beyond the flag |
| `Html.HtmlRtc.DisplayIgnoresWhichParent` | src/main/java/org/htmlunit/html/HtmlRtc.java:73-78 | the default display depends on whether a parent exists, not on which node it is |

## Left out

- Script wrappers: `getScriptableNullSafe`/`getScriptableFor`. The anchor and focus getters return the DOM node, not its script wrapper.
- `getRangeAt` returns the stored range itself; the script `Range` object built around it (parent scope, prototype) is not modelled.
- `getDefaultValue`, `jsToString` and the empty `jsConstructor`: the string form depends on `SimpleRange.toString`, and org/htmlunit/html/impl/SimpleRange.java is not part of this model.
- The exception message of `getRangeAt` ("Invalid range index: " + index): the model keeps the DOM code and the index.
- Aliasing of range objects. Ranges are values. In the code, `collapseToStart`, `collapseToEnd` and `extend` mutate a range object in place. If that object also appears at another position of the list, or is held by a script `Range` passed to `addRange`, those views change too; the model changes only the chosen position.
- Other writers of the page's range list. The list belongs to the page (`HtmlPage.getSelectionRanges`); here it is a field of the selection. Changes made by other page code are not modelled.
- `SimpleRange` internals: `equals` is taken as value equality, and `isCollapsed` as equal start and end containers and offsets. `collapse` moves one boundary onto the other, and `setEnd` assigns the end point without adjusting the start.
- `compareDocumentPosition` and the document tree: a parameter, as described above.
- Null arguments: `parentNode.getDomNodeOrDie()` and `range.getSimpleRange()` with a null argument raise a Java exception; the model takes the arguments as present.
- Java `int` width: counts, indices and offsets are unbounded integers; a list of more than 2^31 - 1 ranges is not considered.
- `HtmlRtc`: `hasFeature` and `getParentNode` are inputs to `GetDefaultStyleDisplay`, since the browser version and the tree are outside this model. Only the three display values this element can produce are modelled.
- `HtmlMeta`, `MimeType`, `CSSMediaRule`, `PresentationConnectionCloseEvent` and two browser-driven tests are not part of this model: they hold no selection or display-rule logic.
