# Accessible trees over parallel columns

This project models, in Dafny, the core of three small Windows programs that
expose a user interface to screen readers through Microsoft UI Automation.
Each program keeps its accessible tree "APL-style": one sequence per node
property (ids, names, types, parents, depths, text lengths, boxes), every
sequence indexed by the node's position in depth-first build order.

- **SRFirst** (`Sources/SRFirstMain.cpp`) is the fullest variant. The
  builder appends named elements under the current adding depth and keeps,
  for every node, the text length of its whole subtree. Element providers
  navigate by scanning the depth column, report patterns and properties by
  node type, and a text-range provider reads, searches, compares, expands
  and moves ranges of text points (a node id and an offset into its name).
  Focus moves one node at a time and buttons run registered actions.
- **TodoApp** (`Sources/TodoAppMain.cpp`) is an immediate-mode variant with
  32-bit ids. Each frame is rebuilt between `ui_begin` and `ui_end`. Buttons
  keep an edge-triggered key state from frame to frame, `ui_begin` drops the
  state of buttons no longer built, and `ui_end` moves the keyboard focus as
  the arrow and Tab keys ask. Four stand-alone navigators answer with
  `std::find` over the depth column.
- **Project1** (`Project1/SRFirstMain.cpp`) is the earliest, flat variant: a
  list of paragraphs with a focused id and clamped sibling navigation.

The modules are `Common` (outcomes, fixed-width ids, bit fields,
rectangles), `Columns` (the node-column lookups, the shape of a built tree,
ancestry, the deepest-node hit test), `SRFirstTree`, `SRFirstNav`,
`SRFirstText`, `TodoAppTree`, `TodoAppNav` and `Project1`.

Conventions:

- A failed `VERIFY`, and undefined behaviour the program would crash on (an
  out-of-range `operator[]`, a division by zero, `wstring::append` past the
  end of a name), is the outcome `Aborted`. Methods that change state report
  it as `aborted: bool`.
- Ids are unbounded integers restricted to their width (`u64` in SRFirst and
  Project1, `u32` in TodoApp). A valid id is neither the root marker 0 nor
  the all-ones "invalid" marker.
- The wyhash-based id of a node is an uninterpreted function field of the
  tree class (`makeId`, `mix`, `hash`). Only the validity and uniqueness
  checks on its result are modelled.
- Points, boxes, the client rectangle and its screen origin are integer
  inputs.
- Each tree is a class whose fields are the columns; the builder, focus and
  frame operations are methods specified against functions on the columns.
  The read-only queries take a snapshot (`SRFirstTree.Nodes`) or the
  columns themselves.

Several behaviours of the code as written are kept as written, and a
lemma exhibits each one:

- the bottom edge of `intersection` is the larger bottom;
- `ElementProviderFromPoint` and `GetEnclosingElement` hand back the
  focused element rather than the one found;
- `GetEnclosingElement` aborts whenever its endpoints lie at different
  depths;
- `get_DocumentRange` ends at the subtree's text length but reading it
  yields only the document's own name, and for the same reason a
  `FindText` over a document's range never searches the text of its
  paragraphs;
- the TodoApp navigators answer the node after a backward match and do not
  stop at subtree boundaries;
- `ui_begin` erases by recorded position in id order, so two dead buttons
  in ascending order abort, either by reading past the end or, when a live
  button follows them, by the check finding that button at the recorded
  position;
- the SRFirst builder takes the adding depth as it finds it, and an adding
  depth that skips a level yields a tree whose child scans miss a child and
  whose runs hold nodes that do not descend from them. With well-nested
  depths (the first node at the top level, each next node at most one
  level deeper, as the program's own window script builds them) a node's
  run is exactly its subtree and next-sibling steps from the first child
  reach every child;
- Project1 accepts repeated ids, which breaks the focus round trip;
- runtime ids keep only the low 32 bits of an id.

## Model

| member | source | states |
|---|---|---|
| Common.Bits | Sources/SRFirstMain.cpp:104-108 | the `num`-bit field starting at bit `start` is below 2^num |
| Common.Bit | Sources/TodoAppMain.cpp:130-133 | defines `bit(x, b)`: bit b of x is set; related to the one-bit field by `BitIsOneBitField` |
| Common.ValidId | Sources/SRFirstMain.cpp:226-228 | defines `valid_id`: neither the root marker 0 nor the all-ones marker |
| Common.Contains | Sources/TodoAppMain.cpp:149-155 | defines `contains`: the point lies in the half-open box; containment under translation is proved by `TranslateKeepsContainment` |
| Common.Intersection | Sources/SRFirstMain.cpp:115-121 | defines `intersection` as written, with the larger bottom; `IntersectionKeepsCommonPoints` and `IntersectionOverreachesBottom` state what it keeps and what it overreaches |
| Common.Translate | Sources/SRFirstMain.cpp:123-129 | defines `operator+` of a box and a point; `TranslateInverse` proves it undone by the opposite offset |
| Common.LowBitsFitU32 | Sources/TodoAppMain.cpp:124-127 | the low 32-bit field of a 64-bit value is the value mod 2^32 and fits a 32-bit id |
| Common.BitIsOneBitField | Sources/TodoAppMain.cpp:130-133 | `bit(x, b)` holds exactly when the one-bit field at `b` is 1 |
| Common.IntersectionKeepsCommonPoints | Sources/SRFirstMain.cpp:115-121 | a point inside both rectangles is inside their intersection |
| Common.IntersectionOverreachesBottom | Sources/SRFirstMain.cpp:119 | because the bottom edge takes the larger bottom, the intersection holds a point outside one of its arguments |
| Common.TranslateKeepsContainment | Sources/SRFirstMain.cpp:123-129 | moving a rectangle and a point by the same offset keeps containment, both ways |
| Common.TranslateInverse | Sources/SRFirstMain.cpp:123-129 | moving by an offset and then by its opposite restores the rectangle |
| Columns.FirstIndex | Sources/SRFirstMain.cpp:2182-2185 | the forward scan stops at the first position holding the id, and reaches the end exactly when the id is absent |
| Columns.LastIndexOf | Sources/SRFirstMain.cpp:2010-2015 | the reverse `std::find` gives the last position holding the value, or -1 with no match after it |
| Columns.FirstWithDepth | Sources/TodoAppMain.cpp:366-377 | the first position in a window with the wanted depth, no earlier one in the window having it |
| Columns.LastWithDepth | Sources/TodoAppMain.cpp:392-406 | the last position in a window with the wanted depth, no later one in the window having it |
| Columns.FirstIndexOfUnique | Sources/SRFirstMain.cpp:2164-2191 | with distinct ids, looking up the id at a position finds that position |
| Columns.IndexOf | Sources/SRFirstMain.cpp:2164-2191 | `ui_get_index` succeeds exactly for a valid id that is present, and gives a position holding it |
| Columns.GetIndex | Sources/TodoAppMain.cpp:236-263 | the scanning loop finds the id exactly when it is valid and present, at its first position |
| Columns.ParentFacts | Sources/SRFirstMain.cpp:2004-2016 | in a built tree a node's parent sits earlier, one level up, with no node of the parent's depth between them |
| Columns.ShapedAppend | Sources/SRFirstMain.cpp:2000-2029 | appending a new valid id under the parent the depth scan picks keeps every node's shape and the ids distinct |
| Columns.NewNodeShaped | Sources/SRFirstMain.cpp:2004-2029 | the appended node has a non-negative depth and its parent is an earlier node one level up |
| Columns.OldNodeShaped | Sources/SRFirstMain.cpp:2021-2029 | appending a node leaves every earlier node's shape intact |
| Columns.StepDepthAppend | Sources/SRFirstMain.cpp:2100-2136 | appending at the top level or at most one level below the last node keeps the depths well nested |
| Columns.DepthReached | Sources/SRFirstMain.cpp:2100-2136 | with well-nested depths, every depth between two positions' is met between them |
| Columns.ParentForDepth | Sources/SRFirstMain.cpp:2004-2016 | the root at depth 0; otherwise a parent exists exactly when some node sits one level up, and it is the last such node |
| Columns.AncOrSelfAppend | Sources/SRFirstMain.cpp:2021-2029 | appending a node changes no ancestry among the nodes already there |
| Columns.DeepestContaining | Sources/TodoAppMain.cpp:337-352 | the scan answers `none` when no box holds the point, otherwise a node holding it that no candidate is deeper than and the last candidate at its depth |
| Columns.Hit | Sources/TodoAppMain.cpp:337-352 | defines a hit: a node of non-negative depth whose box holds the point |
| Columns.StepDepth | Sources/SRFirstMain.cpp:2100-2136 | defines well-nested depths: the first node at the top level and each next node at most one level deeper |
| SRFirstTree.AppendKeepsTextLens | Sources/SRFirstMain.cpp:2031-2039 | adding the new name's length to the new node and each ancestor keeps every text length equal to its subtree's total name length |
| SRFirstTree.AggregateIgnoresOtherColumns | Sources/SRFirstMain.cpp:213 | the text-length aggregate depends only on ids, parents and names |
| SRFirstTree.TextLensAggregate | Sources/SRFirstMain.cpp:2031-2039 | defines the text-length invariant: every node's text length is the total name length of its subtree; kept by `AppendKeepsTextLens` |
| SRFirstTree.TextLenCoversName | Sources/SRFirstMain.cpp:213 | a node's text length is at least its own name's length |
| SRFirstTree.AddToAncestors | Sources/SRFirstMain.cpp:2031-2039 | the parent-chain loop adds the length to exactly the strict ancestors of the new node and to no other node |
| SRFirstTree.AppendNode | Sources/SRFirstMain.cpp:2022-2039 | appends one row to every column, the new node's text length is its name's length, each strict ancestor gains that length, and the tree invariant holds |
| SRFirstTree.UiTree.constructor | Sources/SRFirstMain.cpp:193-223 | an empty tree: no nodes or actions, focus on the root, adding depth 0 |
| SRFirstTree.UiTree.NamedElement | Sources/SRFirstMain.cpp:2000-2041 | aborts exactly when there is no parent one level up or the id is invalid or repeated, and then changes nothing; otherwise appends one entry to every column, sets the new node's text length to its name's length and adds it to each ancestor's, keeping the tree invariant |
| SRFirstTree.UiTree.SearchParent | Sources/SRFirstMain.cpp:2004-2016 | the backward depth scan finds a parent exactly when the parent rule gives one, and returns that parent |
| SRFirstTree.UiTree.NamedAborts | Sources/SRFirstMain.cpp:2004-2022 | defines when ui_named_element aborts: no parent one level up, or the id it would get is invalid or taken |
| SRFirstTree.UiTree.Appended | Sources/SRFirstMain.cpp:2022-2039 | defines the row ui_named_element appends, with the text lengths of the node and of its ancestors |
| SRFirstTree.UiTree.Document | Sources/SRFirstMain.cpp:2044-2046 | aborts exactly when the named element would (no parent one level up, an invalid or repeated id), leaving the columns alone; otherwise appends the Document row: name, parent, adding depth, empty box, text lengths of the node and its ancestors; nothing but the columns changes |
| SRFirstTree.UiTree.TextParagraph | Sources/SRFirstMain.cpp:2049-2051 | aborts exactly when the named element would, leaving the columns alone; otherwise appends the Text row with its name, parent, adding depth, empty box and text lengths; nothing but the columns changes |
| SRFirstTree.UiTree.ButtonElement | Sources/SRFirstMain.cpp:2054-2058 | aborts exactly when the named element would or an action is already registered under the new id; since every registered action belongs to a node (kept by `Valid`), the second check never fires, so it aborts exactly when the named element would; otherwise appends the Button row (name, parent, depth, box, text lengths) and registers the action under its id; focus and adding depth are untouched |
| SRFirstTree.UiTree.PaneElement | Sources/SRFirstMain.cpp:2061-2063 | aborts exactly when the named element would, leaving the columns alone; otherwise appends the Pane row with its name, parent, adding depth, empty box and text lengths; nothing but the columns changes |
| SRFirstTree.UiTree.SetRect | Sources/SRFirstMain.cpp:2066-2070 | replaces the box of an existing node only; aborts when the id names no node |
| SRFirstTree.UiTree.SetFocusTo | Sources/SRFirstMain.cpp:2218-2231 | the focus becomes the id, and it changes exactly when the id was not already focused |
| SRFirstTree.UiTree.FocusNext | Sources/SRFirstMain.cpp:2195-2201 | aborts exactly when the focused id names no node; otherwise focuses the next node, staying on the last one |
| SRFirstTree.UiTree.FocusPrev | Sources/SRFirstMain.cpp:2204-2210 | aborts exactly when the focused id names no node; otherwise focuses the previous node, staying on the first one |
| SRFirstTree.UiTree.Activate | Sources/SRFirstMain.cpp:2234-2248 | an action runs exactly when one is registered under the id |
| SRFirstTree.UiTree.ActivateFocused | Sources/SRFirstMain.cpp:2213-2215 | an action runs exactly when something is focused and has an action |
| SRFirstNav.SameParentAcrossDeeper | Sources/SRFirstMain.cpp:1063-1072 | two nodes of equal depth with only deeper nodes between them share their parent |
| SRFirstNav.RunChildHasParent | Sources/SRFirstMain.cpp:1087-1093 | a node one level down inside a node's run of deeper nodes is its child, as the scan's VERIFY demands |
| SRFirstNav.NextSiblingSharesParent | Sources/SRFirstMain.cpp:1062-1072 | the next sibling the scan finds has the same parent |
| SRFirstNav.PrevSiblingSharesParent | Sources/SRFirstMain.cpp:1073-1084 | the previous sibling the scan finds has the same parent |
| SRFirstNav.SiblingsInverse | Sources/SRFirstMain.cpp:1062-1084 | j is i's next sibling exactly when i is j's previous sibling |
| SRFirstNav.FirstChildIsChild | Sources/SRFirstMain.cpp:1085-1096 | the first child found is one level down and has the node as parent |
| SRFirstNav.LastChildIsChild | Sources/SRFirstMain.cpp:1097-1107 | the last child found is one level down and has the node as parent |
| SRFirstNav.ChildrenBracket | Sources/SRFirstMain.cpp:1085-1107 | a first child exists exactly when a last child does, and it does not come after the last |
| SRFirstNav.NextSiblingOfChildIsChild | Sources/SRFirstMain.cpp:1062-1072 | the next sibling of a child is again a child of the same node |
| SRFirstNav.RunIsSubtree | Sources/SRFirstMain.cpp:1062-1107 | with well-nested depths, the nodes after a node up to the first one no deeper are exactly its descendants |
| SRFirstNav.ChildrenReachable | Sources/SRFirstMain.cpp:1062-1107 | with well-nested depths, every child lies between the first and last child and is reached from the first by next-sibling steps |
| SRFirstNav.SkippedLevelBreaksLayout | Sources/SRFirstMain.cpp:2000-2016 | an adding depth that skips a level builds a tree where a child is missed by first-child and lies in another node's run |
| SRFirstNav.SkippedLevelTreeWf | Sources/SRFirstMain.cpp:2000-2029 | that tree is one the builder accepts |
| SRFirstNav.ChildInParentRun | Sources/SRFirstMain.cpp:1085-1107 | with well-nested depths, every node between a parent and its child is deeper than the parent |
| SRFirstNav.InRun | Sources/SRFirstMain.cpp:1064-1069 | a node preceded up to the start only by deeper nodes lies in the start node's run |
| SRFirstNav.SiblingStepsReach | Sources/SRFirstMain.cpp:1062-1072 | next-sibling steps reach every later node one level below the parent within its run |
| SRFirstNav.ScanNextSibling | Sources/SRFirstMain.cpp:1062-1072 | the loop finds the next sibling of the pre-order layout, or stays on the node; what it finds shares the parent |
| SRFirstNav.SiblingChain | Sources/SRFirstMain.cpp:1062-1072 | defines the nodes reached from a node by repeated next-sibling steps |
| SRFirstNav.NextSiblingOf | Sources/SRFirstMain.cpp:1062-1072 | defines the next-sibling scan: the first node no deeper than this one, if it is at the same depth; partnered by `SiblingsInverse` and `NextSiblingSharesParent` |
| SRFirstNav.PrevSiblingOf | Sources/SRFirstMain.cpp:1073-1084 | defines the mirrored backward scan; partnered by `SiblingsInverse` and `PrevSiblingSharesParent` |
| SRFirstNav.FirstChildOf | Sources/SRFirstMain.cpp:1085-1096 | defines the first node one level deeper within the node's run; partnered by `FirstChildIsChild` and `ChildrenReachable` |
| SRFirstNav.LastChildOf | Sources/SRFirstMain.cpp:1097-1107 | defines the last node one level deeper within the node's run; partnered by `LastChildIsChild` and `ChildrenBracket` |
| SRFirstNav.NavigateFrom | Sources/SRFirstMain.cpp:1056-1120 | defines where each direction leads from a node; `Navigate` is proved against it |
| SRFirstNav.RootNavigateSpec | Sources/SRFirstMain.cpp:617-660 | defines the root's navigation: the first and last top-level node for the child directions; `RootNavigate` is proved against it |
| SRFirstNav.Supports | Sources/SRFirstMain.cpp:807-877 | defines which node types provide the text, value and invoke patterns |
| SRFirstNav.ControlTypeOf | Sources/SRFirstMain.cpp:901-911 | defines the control type reported for each node type |
| SRFirstNav.RootHasKeyboardFocus | Sources/SRFirstMain.cpp:563-566 | defines the root's keyboard-focus property: true exactly when nothing is focused |
| SRFirstNav.ScanPrevSibling | Sources/SRFirstMain.cpp:1073-1084 | the loop finds the previous sibling, or stays on the node; what it finds shares the parent |
| SRFirstNav.ScanFirstChild | Sources/SRFirstMain.cpp:1085-1096 | the loop finds the first child, or stays on the node; what it finds is a child |
| SRFirstNav.ScanLastChild | Sources/SRFirstMain.cpp:1097-1107 | the loop finds the last child, or stays on the node; what it finds is a child |
| SRFirstNav.Navigate | Sources/SRFirstMain.cpp:1044-1120 | aborts exactly when the element names no node; otherwise answers the parent (the root for 0) or the node the direction's scan finds, and nothing when the scan stays put |
| SRFirstNav.RootNavigate | Sources/SRFirstMain.cpp:617-660 | the first and the last top-level node for the child directions, nothing otherwise; every answer is a top-level node |
| SRFirstNav.RootGetFocus | Sources/SRFirstMain.cpp:671-682 | nothing when the focus is on the root, the focused element when it names a node, an abort otherwise |
| SRFirstNav.ElementFromPoint | Sources/SRFirstMain.cpp:685-722 | the root when no node holds the point, otherwise the focused element (aborting when that names no node), not the node hit |
| SRFirstNav.HitTest | Sources/SRFirstMain.cpp:697-709 | 0 exactly when no node holds the point, otherwise the deepest node holding it, the last at its depth |
| SRFirstNav.GetPatternProvider | Sources/SRFirstMain.cpp:807-877 | aborts on an unknown or untyped element; a provider of the asked pattern for the element exactly when its type supports it |
| SRFirstNav.ControlTypeInjective | Sources/SRFirstMain.cpp:901-911 | distinct node types report distinct control types |
| SRFirstNav.GetPropertyValue | Sources/SRFirstMain.cpp:880-981 | aborts on an unknown or untyped element; the name, the control type of the type, keyboard focus exactly for the focused element, a label for documents only |
| SRFirstNav.FocusReportedOnce | Sources/SRFirstMain.cpp:563-566 | an element reporting keyboard focus means the root does not |
| SRFirstText.ComparePoints | Sources/SRFirstMain.cpp:473-476 | offsets within a node, positions across nodes; aborts exactly when the ids differ and one names no node |
| SRFirstText.ComparePointsEqualIffSame | Sources/SRFirstMain.cpp:469-476 | two points compare equal exactly when they are the same point |
| SRFirstText.ComparePointsFlip | Sources/SRFirstMain.cpp:473-476 | swapping the operands flips the ordering |
| SRFirstText.ComparePointsTransitive | Sources/SRFirstMain.cpp:473-476 | the ordering is transitive |
| SRFirstText.CompareEndpoints | Sources/SRFirstMain.cpp:1419-1447 | -1, 0 or +1, zero exactly when the chosen endpoints are the same point |
| SRFirstText.CompareEndpointsAntisymmetric | Sources/SRFirstMain.cpp:1419-1447 | comparing the other way round negates the answer |
| SRFirstText.Compare | Sources/SRFirstMain.cpp:1408-1416 | true exactly when the two ranges are equal |
| SRFirstText.WalkLast | Sources/SRFirstMain.cpp:1672-1694 | the walk stops at the first node of the end id, or at the last node |
| SRFirstText.Piece | Sources/SRFirstMain.cpp:1678-1679 | `append(name, pos, n)` copies the slice of the name from `pos`, at most `n` long or all of it for a negative `n`, and aborts on a position outside the name |
| SRFirstText.ReadWithinNode | Sources/SRFirstMain.cpp:1665-1699 | a range within one node reads its name from the start offset to the end offset, or to the end of the name |
| SRFirstText.TextWalk | Sources/SRFirstMain.cpp:1673-1690 | defines the node-by-node read from a start point to the end point |
| SRFirstText.Truncate | Sources/SRFirstMain.cpp:1692-1694 | defines the cut to `maxLength`, none for a negative length; `GetTextTruncates` states the result |
| SRFirstText.GetTextSpec | Sources/SRFirstMain.cpp:1665-1699 | defines GetText: abort on an unknown start id, else the walk cut to `maxLength`; `ReadWithinNode` and `GetTextWithinNode` state its one-node reads |
| SRFirstText.GetTextWithinNode | Sources/SRFirstMain.cpp:1665-1699 | a range within one node reads exactly the name between its offsets |
| SRFirstText.GetTextTruncates | Sources/SRFirstMain.cpp:1692-1694 | a result cut to `maxLength` is the prefix of the uncut one of length min(maxLength, its length) |
| SRFirstText.DocumentRange | Sources/SRFirstMain.cpp:1268-1281 | a range only for documents, from offset 0 to the document's text length; aborts on an unknown element |
| SRFirstText.DocumentRangeReadsOwnName | Sources/SRFirstMain.cpp:1278 | reading a document's range yields the document's own name, not the text of its subtree |
| SRFirstText.FindFrom | Sources/SRFirstMain.cpp:1499 | `wstring::find` answers the first match at or after the position, none before it, and nothing for a negative position |
| SRFirstText.StopsAt | Sources/SRFirstMain.cpp:1500-1502 | defines when the search stops at the end node: no match, or one that reaches the end offset |
| SRFirstText.FindWalk | Sources/SRFirstMain.cpp:1493-1515 | defines the forward search over the visited nodes; sound by `FindWalkReadsNeedle` and `FindWalkEndsBeforeEnd`, complete by `FindWalkFindsFirst` |
| SRFirstText.FindTextSpec | Sources/SRFirstMain.cpp:1476-1522 | defines FindText's status codes and the forward search; the method is proved against it |
| SRFirstText.FindWalkReadsNeedle | Sources/SRFirstMain.cpp:1476-1522 | what the search finds lies in one node, is as long as the needle, and reads back as the needle |
| SRFirstText.FindWalkEndsBeforeEnd | Sources/SRFirstMain.cpp:1501-1510 | a match in the end node ends before the end offset |
| SRFirstText.FindWalkFindsFirst | Sources/SRFirstMain.cpp:1493-1515 | a needle present at an acceptable place in a node reached before the end is found, and the answer is no later than it |
| SRFirstText.DocumentSearchStaysInDocument | Sources/SRFirstMain.cpp:1278 | a search over a document's range succeeds and never answers outside the document's own node |
| SRFirstText.BoxesWithinClient | Sources/SRFirstMain.cpp:1533-1582 | at most one box per visited node, each upright and inside the client's left, right and top edges in screen coordinates |
| SRFirstText.ClippedBox | Sources/SRFirstMain.cpp:1549-1552 | defines a reported box: the node box clipped by the client rectangle and moved to screen coordinates |
| SRFirstText.Boxes | Sources/SRFirstMain.cpp:1545-1562 | defines the boxes of the visited nodes, skipping inverted ones; bounded by `BoxesWithinClient` |
| SRFirstText.LockstepMeet | Sources/SRFirstMain.cpp:1650-1655 | the lockstep climb meets at a common ancestor-or-self, strictly above both when they differ |
| SRFirstText.LiftShallower | Sources/SRFirstMain.cpp:1641-1648 | the depth loop aborts exactly when the lifted node starts shallower than the other, and otherwise leaves it alone |
| SRFirstText.ClimbLockstep | Sources/SRFirstMain.cpp:1650-1655 | the lockstep loop computes the lockstep climb |
| SRFirstText.EnclosingSpec | Sources/SRFirstMain.cpp:1626-1662 | whenever it succeeds it answers the focused element, which names a node |
| SRFirstText.EnclosingAbortsOnDepthMismatch | Sources/SRFirstMain.cpp:1641-1648 | endpoints at different depths always abort |
| SRFirstText.AncestorWalkIsStrictAncestor | Sources/SRFirstMain.cpp:1985-1997 | the parent-chain walk answers "is a strict ancestor" |
| SRFirstText.AncestorWalk | Sources/SRFirstMain.cpp:1985-1997 | defines the parent-chain walk of `is_ancestor`; `AncestorWalkIsStrictAncestor` relates it to ancestry |
| SRFirstText.ParentIndex | Sources/SRFirstMain.cpp:1978-1982 | succeeds exactly for a node with a non-root parent, and gives an earlier position one level up holding the parent id |
| SRFirstText.IsAncestor | Sources/SRFirstMain.cpp:1985-1997 | false for 0; aborts exactly when `of` names no node; otherwise the strict-ancestor walk |
| SRFirstText.MeetPassesAncestorChecks | Sources/SRFirstMain.cpp:1656-1658 | the meeting node passes both ancestor VERIFYs |
| SRFirstText.Expanded | Sources/SRFirstMain.cpp:1450-1463 | the start moves to offset 0 and the end to the end of its node's name; aborts exactly when the end id names no node |
| SRFirstText.ExpandIdempotent | Sources/SRFirstMain.cpp:1450-1463 | expanding twice is expanding once |
| SRFirstText.ExpandedReadsWholeName | Sources/SRFirstMain.cpp:1450-1463 | an expanded range within one node reads the node's whole name |
| SRFirstText.NormalizeTo | Sources/SRFirstMain.cpp:1718-1742 | the climb ends at an ancestor-or-self of the type |
| SRFirstText.NormalizeAbortsIffNoAncestor | Sources/SRFirstMain.cpp:1718-1742 | the climb aborts exactly when no ancestor-or-self has the type |
| SRFirstText.Advance | Sources/SRFirstMain.cpp:1755-1770 | the walk ends at the start node or at a node of the type, on the side `count` points to |
| SRFirstText.MoveByOneStaysPut | Sources/SRFirstMain.cpp:1755-1770 | a move by one unit lands on the start node, since it counts as the first step |
| SRFirstText.MoveByTwoReachesNext | Sources/SRFirstMain.cpp:1755-1770 | a move by two units lands on the next node of the type |
| SRFirstText.AdvanceForwardTakesNth | Sources/SRFirstMain.cpp:1755-1770 | a forward advance by n steps stays put when there are no steps or no node of the type ahead; otherwise it stops on the node of the type that is the min(n, available)-th one from its position |
| SRFirstText.AdvanceBackwardTakesNth | Sources/SRFirstMain.cpp:1755-1770 | the backward mirror: the min(n, available)-th node of the type counting down, or no move |
| SRFirstText.MoveTakesNthUnit | Sources/SRFirstMain.cpp:1755-1770 | for every non-zero count, a move from a node of the type (the first step) ends on the min(abs(count), available)-th node of the type in the count's direction |
| SRFirstText.MoveSpec | Sources/SRFirstMain.cpp:1702-1797 | a failing status leaves the range unchanged, and units the text has no notion of fail unless the range is empty |
| SRFirstText.MovedRangeCoversOneNode | Sources/SRFirstMain.cpp:1788-1796 | after a document or paragraph move the range covers one node of that type and reads back as its name |
| SRFirstText.NodeRange | Sources/SRFirstMain.cpp:1788-1796 | defines the range a move lands on: one node, from 0 to its text length |
| SRFirstText.UnsupportedResult | Sources/SRFirstMain.cpp:1800-1833 | every unimplemented operation fails, with E_UNEXPECTED exactly for AddToSelection |
| SRFirstText.ClimbToType | Sources/SRFirstMain.cpp:1718-1742 | the climbing loop computes the normalisation |
| SRFirstText.AdvanceByType | Sources/SRFirstMain.cpp:1755-1770 | aborts exactly on a start node of another type or a zero count; otherwise the walk |
| SRFirstText.TextRangeProvider.Clone | Sources/SRFirstMain.cpp:1398-1405 | a new provider over the same range |
| SRFirstText.TextRangeProvider.GetText | Sources/SRFirstMain.cpp:1665-1699 | the loop computes the text of the walk, cut to `maxLength` |
| SRFirstText.TextRangeProvider.FindText | Sources/SRFirstMain.cpp:1476-1522 | E_POINTER for null arguments, E_NOTIMPL for backward or case-insensitive searches, otherwise the forward search |
| SRFirstText.TextRangeProvider.GetChildren | Sources/SRFirstMain.cpp:1585-1623 | one entry per visited node while the start offset is 0 (it is never reset), none otherwise, each the focused element |
| SRFirstText.TextRangeProvider.GetBoundingRectangles | Sources/SRFirstMain.cpp:1533-1582 | the clipped, moved boxes of the visited nodes; aborts exactly when the start id names no node |
| SRFirstText.TextRangeProvider.GetEnclosingElement | Sources/SRFirstMain.cpp:1626-1662 | the depth loops and the lockstep climb compute the enclosing-element specification |
| SRFirstText.TextRangeProvider.ExpandToEnclosingUnit | Sources/SRFirstMain.cpp:1450-1463 | the range becomes its expansion, whatever the unit |
| SRFirstText.TextRangeProvider.Move | Sources/SRFirstMain.cpp:1702-1797 | the status and the new range are those of the move specification |
| TodoAppTree.TypeDesc | Sources/TodoAppMain.cpp:266-277 | "(invalid)" exactly for the missing type |
| TodoAppTree.TypeDescInjective | Sources/TodoAppMain.cpp:266-277 | distinct types get distinct names |
| TodoAppTree.Update | Sources/TodoAppMain.cpp:292-297 | the level becomes the new one; pressed on a rise, released on a fall, neither when the level holds |
| TodoAppTree.UpdateSettles | Sources/TodoAppMain.cpp:292-297 | a second update with the same level reports no edge |
| TodoAppTree.UpdateIgnoresOldEdges | Sources/TodoAppMain.cpp:292-297 | clearing the edges does not change what the next update reports |
| TodoAppTree.ResetTriggers | Sources/TodoAppMain.cpp:492-496 | every state keeps its level and loses both edges |
| TodoAppTree.FocusRequest | Sources/TodoAppMain.cpp:466-469 | Down asks for next, Up for previous, Tab for next or, with Shift held, previous |
| TodoAppTree.NextFocus | Sources/TodoAppMain.cpp:465-488 | no request keeps the focus; from nothing to the first node; one node forward or back within bounds; aborts exactly when a move is asked from an id that names no node |
| TodoAppTree.NextThenPrevReturns | Sources/TodoAppMain.cpp:473-487 | with distinct ids, a forward move that went anywhere is undone by a backward move |
| TodoAppTree.PrevThenNextReturns | Sources/TodoAppMain.cpp:473-487 | with distinct ids, a backward move that went anywhere is undone by a forward move |
| TodoAppTree.WithoutMembers | Sources/TodoAppMain.cpp:415-443 | the buttons kept are exactly those whose ids are not dropped |
| TodoAppTree.Without | Sources/TodoAppMain.cpp:415-442 | defines the ids and states left after dropping a set of ids, aligned and no longer than before; `WithoutMembers` states which are kept |
| TodoAppTree.WithoutUnique | Sources/TodoAppMain.cpp:415-443 | dropping keeps the ids distinct |
| TodoAppTree.WithoutErase | Sources/TodoAppMain.cpp:438-442 | erasing the entry at a position is dropping its id |
| TodoAppTree.EraseAll | Sources/TodoAppMain.cpp:438-442 | the erase loop keeps ids and states aligned |
| TodoAppTree.EraseAllRemovesListed | Sources/TodoAppMain.cpp:438-442 | when the erase loop gets through, it removed exactly the listed buttons and kept the rest in order |
| TodoAppTree.DeadPairs | Sources/TodoAppMain.cpp:419-422 | (id, position) of exactly the buttons whose id is not live |
| TodoAppTree.InsertById | Sources/TodoAppMain.cpp:423-425 | insertion adds exactly the new pair to the elements |
| TodoAppTree.InsertSortedAbove | Sources/TodoAppMain.cpp:423-425 | insertion into a list sorted by id keeps it sorted and keeps a common lower bound on the ids |
| TodoAppTree.InsertKeepsSorted | Sources/TodoAppMain.cpp:423-425 | insertion into a list sorted by id keeps it sorted |
| TodoAppTree.SortById | Sources/TodoAppMain.cpp:423-425 | the result is a permutation sorted by id |
| TodoAppTree.DeadInIdOrder | Sources/TodoAppMain.cpp:415-437 | the erase list names exactly the dead buttons with their positions, sorted by id |
| TodoAppTree.DeadIds | Sources/TodoAppMain.cpp:415-437 | the ids of buttons not built in the last frame |
| TodoAppTree.DeadInIdOrderIds | Sources/TodoAppMain.cpp:415-437 | the erase list names exactly the dead ids |
| TodoAppTree.TwoDeadButtonsAbort | Sources/TodoAppMain.cpp:438-442 | with buttons 5 and 7 both dead, the second erase reads past the end and aborts |
| TodoAppTree.StaleIndexFailsCheck | Sources/TodoAppMain.cpp:438-442 | with buttons 5, 7 and 9 and only 9 built, the position recorded for 7 holds 9 after the first erase, so the check fails |
| TodoAppTree.OneDeadButtonErased | Sources/TodoAppMain.cpp:438-442 | a single dead button is always erased cleanly |
| TodoAppTree.EraseDead | Sources/TodoAppMain.cpp:438-442 | the erase loop computes the erase specification |
| TodoAppTree.KeptButtons | Sources/TodoAppMain.cpp:411-451 | after a successful garbage collection the kept buttons are exactly those built last frame, in order, ids distinct, states aligned |
| TodoAppTree.DropDeadButtons | Sources/TodoAppMain.cpp:415-442 | aborts exactly when the erase loop does; otherwise keeps exactly the buttons built last frame, ids distinct, states aligned |
| TodoAppTree.NodesAppend | Sources/TodoAppMain.cpp:536-543 | appending a new valid id under the parent the depth scan picks keeps the columns a built tree |
| TodoAppTree.Ui.constructor | Sources/TodoAppMain.cpp:184-226 | all 256 keys idle, nothing focused, no nodes or buttons |
| TodoAppTree.Ui.PollKeys | Sources/TodoAppMain.cpp:1101-1113 | every key and Shift take bit 7 of their state byte as their level; the inputs are marked updated |
| TodoAppTree.Ui.UpdateFocus | Sources/TodoAppMain.cpp:282-286 | the focus becomes the id, flagged exactly when it changed |
| TodoAppTree.Ui.Begin | Sources/TodoAppMain.cpp:411-451 | aborts exactly when the erase loop does; otherwise drops exactly the dead buttons and empties every node column |
| TodoAppTree.Ui.CollectButtons | Sources/TodoAppMain.cpp:415-442 | aborts exactly when the erase loop does; otherwise the buttons are exactly those built last frame, ids distinct |
| TodoAppTree.Ui.ClearNodes | Sources/TodoAppMain.cpp:445-450 | every node column is empty and the state is consistent |
| TodoAppTree.Ui.End | Sources/TodoAppMain.cpp:456-501 | checks the focus, moves it as the keys ask when inputs were updated, clears every edge and both flags, aborts on an unclosed pane |
| TodoAppTree.Ui.MoveFocus | Sources/TodoAppMain.cpp:465-490 | aborts exactly when the focus move for the keys' request aborts; otherwise the focus is where that move lands |
| TodoAppTree.Ui.ParentIndexForAdding | Sources/TodoAppMain.cpp:504-513 | the last node one level above the adding depth, none when there is none |
| TodoAppTree.Ui.NamedElement | Sources/TodoAppMain.cpp:516-549 | aborts exactly when there is no parent one level up or the low 32 bits of the mixed hash are an invalid or repeated id, and then changes nothing; otherwise one row showing the text or the name, in box {0, 0, 200, 200} |
| TodoAppTree.Ui.NewNodeId | Sources/TodoAppMain.cpp:521-534 | the parent search succeeds exactly when the depth scan finds a parent, and the id is the low 32 bits of the mixed hash under it |
| TodoAppTree.Ui.NamedAborts | Sources/TodoAppMain.cpp:521-537 | defines when ui_named_element aborts: no parent one level up, or the truncated id is invalid or taken |
| TodoAppTree.Ui.Appended | Sources/TodoAppMain.cpp:530-547 | defines the row ui_named_element appends |
| TodoAppTree.Ui.AppendNode | Sources/TodoAppMain.cpp:538-547 | one row appended to every column, the state kept consistent |
| TodoAppTree.Ui.TextParagraph | Sources/TodoAppMain.cpp:552-554 | aborts exactly when the named element would (no parent one level up, an invalid or repeated truncated id), leaving the columns alone; otherwise appends the Text row showing its content, with its id, parent, adding depth and box |
| TodoAppTree.Ui.ButtonElement | Sources/TodoAppMain.cpp:563-586 | aborts exactly when the named element would; otherwise appends the Button row, reuses or appends its key state, updates it with "focused and Return down", activated exactly on release |
| TodoAppTree.Ui.PaneBegin | Sources/TodoAppMain.cpp:589-593 | aborts exactly when the named element would, changing nothing; otherwise appends the Pane row with its name, parent and depth and deepens the adding depth by one |
| TodoAppTree.Ui.PaneEnd | Sources/TodoAppMain.cpp:596-601 | aborts unless the pane is the last node one level up; then the adding depth returns to the pane's |
| TodoAppTree.Ui.EmptyPane | Sources/TodoAppMain.cpp:589-601 | opening a pane and closing it at once aborts exactly when opening does; otherwise the Pane row is appended and the adding depth is restored |
| TodoAppTree.Ui.ElementFromPoint | Sources/TodoAppMain.cpp:675-687 | the deepest node holding the point, or 0 |
| TodoAppNav.NextSiblingOf | Sources/TodoAppMain.cpp:366-377 | the first node anywhere after at the same depth, or Id(-1); aborts on an unknown id |
| TodoAppNav.FirstChildOf | Sources/TodoAppMain.cpp:379-390 | the first node anywhere after one level deeper, or Id(-1) |
| TodoAppNav.PrevSiblingOf | Sources/TodoAppMain.cpp:354-364 | the node after the last same-depth node before index - 1, or Id(-1) |
| TodoAppNav.SameDepthAfter | Sources/TodoAppMain.cpp:400 | the first later node at the same depth bounds the last-child search |
| TodoAppNav.LastChildOf | Sources/TodoAppMain.cpp:392-406 | the node after the last one-level-deeper node before the next same-depth node; aborts when that read falls past the end |
| TodoAppNav.Answer | Sources/TodoAppMain.cpp:844-851 | the root for 0, an element for another valid id, nothing for the asker or Id(-1) |
| TodoAppNav.Navigate | Sources/TodoAppMain.cpp:815-853 | aborts exactly on an unknown element or an aborting last-child read; the parent yields the root exactly at the top level |
| TodoAppNav.NavigateStaysInTree | Sources/TodoAppMain.cpp:815-853 | in a built tree every element handed back is a node |
| TodoAppNav.FirstChildWhenPresent | Sources/TodoAppMain.cpp:379-390 | a node followed by a deeper node gets that node as first child, and it is a child |
| TodoAppNav.NextSiblingWhenPresent | Sources/TodoAppMain.cpp:366-377 | where a true next sibling exists it is found, and it shares the parent |
| TodoAppNav.PrevSiblingAnswersFollower | Sources/TodoAppMain.cpp:363 | in A, B (child of A), C the previous sibling of C comes out as B |
| TodoAppNav.NextSiblingCrossesParents | Sources/TodoAppMain.cpp:374 | the next sibling can be a child of another parent |
| TodoAppNav.LastChildAnswersFollower | Sources/TodoAppMain.cpp:405 | the last child of A comes out as the node after A's real last child |
| TodoAppNav.LastChildAtEndAborts | Sources/TodoAppMain.cpp:392-406 | when the last child found is the last node, the read past the end aborts |
| TodoAppNav.RootNavigate | Sources/TodoAppMain.cpp:725-757 | aborts exactly when the last-child read falls past the end; first child is the first top-level node |
| TodoAppNav.RootLastChildNotTopLevel | Sources/TodoAppMain.cpp:746 | the root's last child is the node after the last top-level node |
| Project1.Int32 | Project1/SRFirstMain.cpp:594 | the signed 32-bit conversion stays in range and keeps the value mod 2^32 |
| Project1.RuntimeId | Project1/SRFirstMain.cpp:591-611 | UiaAppendRuntimeId followed by the low 32 bits of the id as a signed value |
| Project1.RuntimeIdSameIffLowBits | Project1/SRFirstMain.cpp:594 | two ids share a runtime id exactly when their low 32 bits agree |
| Project1.RuntimeIdCollides | Project1/SRFirstMain.cpp:594 | distinct valid ids can share a runtime id |
| Project1.FocusStep | Project1/SRFirstMain.cpp:703-737 | aborts exactly when the focus is not in the list; otherwise a paragraph of the list, staying put only at the end |
| Project1.FocusStepRoundTrip | Project1/SRFirstMain.cpp:703-737 | with distinct ids, a step that moved is undone by a step the other way |
| Project1.FocusStepDuplicates | Project1/SRFirstMain.cpp:675-683 | with a repeated id the round trip fails |
| Project1.Navigate | Project1/SRFirstMain.cpp:614-651 | aborts exactly on an unknown element; the root for Parent, nothing for the child directions, the clamped neighbour otherwise |
| Project1.SiblingRoundTrip | Project1/SRFirstMain.cpp:614-651 | with distinct valid ids, next and previous sibling undo each other |
| Project1.RootNavigate | Project1/SRFirstMain.cpp:389-415 | the first or last paragraph for the child directions when there is one, never the root |
| Project1.RootChildrenAreEnds | Project1/SRFirstMain.cpp:389-415 | the root's first child has no previous sibling and its last child no next sibling |
| Project1.FlatTree.constructor | Project1/SRFirstMain.cpp:264-274 | an empty list with nothing focused |
| Project1.FlatTree.TextParagraph | Project1/SRFirstMain.cpp:675-683 | appends one id and one name, the id the hash of the text; aborts exactly on an invalid id, accepts a repeated one |
| Project1.FlatTree.Describe | Project1/SRFirstMain.cpp:686-699 | aborts exactly when one of the three paragraph hashes is an invalid id; otherwise appends the three paragraphs' ids and names and focuses the second when nothing was focused |
| Project1.FlatTree.FocusNext | Project1/SRFirstMain.cpp:703-719 | aborts exactly when the focus is not in the list; otherwise the forward step |
| Project1.FlatTree.FocusPrev | Project1/SRFirstMain.cpp:722-737 | aborts exactly when the focus is not in the list; otherwise the backward step |
| Project1.FlatTree.FindFocused | Project1/SRFirstMain.cpp:704-708 | the scan finds the first position of the focused id, or the list's length |
| Project1.FlatTree.SetFocus | Project1/SRFirstMain.cpp:654-659 | the focus becomes the element, unconditionally |

## Left out

- COM plumbing is not modelled: reference counting, `QueryInterface`, the provider cache, and SAFEARRAY, VARIANT and BSTR marshalling. Results are sequences and values instead.
- A null out-pointer argument is modelled only for `FindText`, where it decides the status code. The other operations take their out-pointers as given.
- The Win32 window, message loop, menus and dialogs are not modelled, nor the `VERIFY`s on the key in `WM_KEYDOWN`/`WM_KEYUP` (they check the operating system's report). Keyboard state is an input sequence of bytes: `Ui.PollKeys` (the `GetKeyboardState` poll) takes it as a parameter rather than reading it from the operating system.
- UI Automation events and the `UiaClientsAreListening` gating are foreign calls; only the state change before them is modelled.
- wyhash is an uninterpreted function field; its distribution is not modelled.
- Floating point (the `double` coordinates of point queries, `UiaRect`, rounding) is replaced by integer points, client rectangles and origins given as inputs.
- The two-entry "fingers" cache in front of `ui_get_index` is performance-only and is not modelled; a stale cache entry across TodoApp frames is therefore not represented.
- Logging, the application scripts `ui_describe`/`main_update` of SRFirst and TodoApp, and the bodies of button actions are left out; actions are opaque tags.
- The text provider's `GetSelection`, `GetVisibleRanges`, `RangeFromChild`, `RangeFromPoint` and `get_SupportedTextSelection`, and the value and invoke providers, are not modelled.
- TodoApp's `RootProvider::GetFocus`, `GetPropertyValue` and `GetPatternProvider` and `AnyElementProvider::GetPropertyValue` are not modelled; the SRFirst versions are.
- TodoApp's `AnyElementProvider::SetFocus` is `ui_update_focus` followed by `main_update`; only the first is modelled (`TodoAppTree.Ui.UpdateFocus`).
- `ui_on_press`/`ui_down` (a key range `VERIFY` and a field read) are not separate members; `FocusRequest` reads the key states directly.
- Offsets, counts and text lengths are unbounded integers: the `int` overflow of a text length cast to an offset and `abs(INT_MIN)` in `Move` are not modelled.
- SRFirstText.TextRangeProvider.Move: the step count is never written back by the source, so the method returns only the status and the new range.
- Common.Bits: the source `VERIFY(start + num < 64)` is a precondition here, since every caller passes constant fields.
- SRFirstText.MoveSpec: its own ensures state only the failure cases; the successful move is described by `MovedRangeCoversOneNode`, `NormalizeAbortsIffNoAncestor`, `MoveTakesNthUnit` and the walk lemmas.
