/**
 * The text-range engine of the SRFirst window (Sources/SRFirstMain.cpp):
 * points in the text, their ordering, and the range provider that reads,
 * searches, expands and moves a range over the node list in build order.
 *
 * A range's walk starts at the node of its start id and goes forward one
 * node at a time; it stops after the node of its end id, or after the last
 * node when the end id does not come up.
 */
module SRFirstText {
  import opened Common
  import opened Columns
  import opened SRFirstTree
  import opened SRFirstNav

  /** The status codes the range provider hands back. */
  datatype HResult = SOk | EPointer | ENotImpl | EUnexpected

  /** A call that either fails with a status code or succeeds with a value. */
  datatype Answer<T> = Fail(hr: HResult) | Ok(value: T)

  /** A position: an offset into the name of the node with the given id. */
  datatype TextPoint = TextPoint(id: Id, offset: int)

  datatype Range = Range(start: TextPoint, end: TextPoint)

  datatype Ordering = Less | Equal | Greater

  datatype Endpoint = StartPoint | EndPoint

  datatype TextUnit = CharacterUnit | FormatUnit | WordUnit | LineUnit | ParagraphUnit | PageUnit | DocumentUnit

  // ---------------------------------------------------------------------
  // Ordering of points

  function CompareInts(a: int, b: int): Ordering
  {
    if a < b then Less else if a == b then Equal else Greater
  }

  function Flip(o: Ordering): Ordering
  {
    match o
    case Less => Greater
    case Equal => Equal
    case Greater => Less
  }

  /** operator<=> on points: offsets within one node, build-order positions
    * across nodes; looking up a position aborts on an id that names no
    * node. */
  function ComparePoints(t: Nodes, a: TextPoint, b: TextPoint): (r: Outcome<Ordering>)
    ensures r.Aborted? <==> a.id != b.id && (!ExistsId(t, a.id) || !ExistsId(t, b.id))
  {
    if a.id == b.id then Done(CompareInts(a.offset, b.offset))
    else
      match (IndexOf(t.ids, a.id, Max64), IndexOf(t.ids, b.id, Max64))
      case (Some(i), Some(j)) => Done(CompareInts(i, j))
      case _ => Aborted
  }

  /** Two points compare equal exactly when they are the same point. */
  lemma ComparePointsEqualIffSame(t: Nodes, a: TextPoint, b: TextPoint)
    ensures ComparePoints(t, a, b) == Done(Equal) <==> a == b
  {
    if a.id != b.id && ExistsId(t, a.id) && ExistsId(t, b.id) {
      assert t.ids[FirstIndex(t.ids, a.id)] == a.id;
      assert t.ids[FirstIndex(t.ids, b.id)] == b.id;
    }
  }

  /** Swapping the operands flips the ordering. */
  lemma ComparePointsFlip(t: Nodes, a: TextPoint, b: TextPoint)
    ensures ComparePoints(t, b, a).Aborted? <==> ComparePoints(t, a, b).Aborted?
    ensures ComparePoints(t, a, b).Done? ==>
              ComparePoints(t, b, a) == Done(Flip(ComparePoints(t, a, b).value))
  {
  }

  /** The ordering is transitive. */
  lemma ComparePointsTransitive(t: Nodes, a: TextPoint, b: TextPoint, c: TextPoint)
    requires ComparePoints(t, a, b) == Done(Less) && ComparePoints(t, b, c) == Done(Less)
    ensures ComparePoints(t, a, c) == Done(Less)
  {
    if a.id != c.id {
      if a.id == b.id {
        assert ExistsId(t, c.id) && ExistsId(t, a.id);
      } else if b.id == c.id {
        assert ExistsId(t, a.id) && ExistsId(t, c.id);
      }
    }
  }

  function EndpointOf(r: Range, e: Endpoint): TextPoint
  {
    if e == StartPoint then r.start else r.end
  }

  /** CompareEndpoints: -1, 0 or +1 as the chosen endpoint of `self` comes
    * before, at or after the chosen endpoint of `other`. */
  function CompareEndpoints(t: Nodes, self: Range, e: Endpoint, other: Range, oe: Endpoint): (r: Outcome<int>)
    ensures r.Done? ==> -1 <= r.value <= 1
    ensures r.Done? ==> (r.value == 0 <==> EndpointOf(self, e) == EndpointOf(other, oe))
    ensures r.Aborted? <==> ComparePoints(t, EndpointOf(self, e), EndpointOf(other, oe)).Aborted?
  {
    ComparePointsEqualIffSame(t, EndpointOf(self, e), EndpointOf(other, oe));
    match ComparePoints(t, EndpointOf(self, e), EndpointOf(other, oe))
    case Aborted => Aborted
    case Done(o) => Done(match o case Less => -1 case Equal => 0 case Greater => 1)
  }

  /** Comparing the endpoints the other way round negates the answer. */
  lemma CompareEndpointsAntisymmetric(t: Nodes, a: Range, e: Endpoint, b: Range, f: Endpoint)
    ensures CompareEndpoints(t, a, e, b, f).Aborted? <==> CompareEndpoints(t, b, f, a, e).Aborted?
    ensures CompareEndpoints(t, a, e, b, f).Done? ==>
              CompareEndpoints(t, b, f, a, e).value == -CompareEndpoints(t, a, e, b, f).value
  {
    ComparePointsFlip(t, EndpointOf(a, e), EndpointOf(b, f));
  }

  /** Compare: the two ranges have the same start and the same end. */
  function Compare(self: Range, other: Range): (r: bool)
    ensures r <==> self == other
  {
    other.start == self.start && other.end == self.end
  }

  // ---------------------------------------------------------------------
  // The walk from start to end

  /** Position of the last node a walk from position s visits. */
  function WalkLast(t: Nodes, s: nat, endId: int): (r: nat)
    requires t.Aligned() && s < |t.ids|
    ensures s <= r < |t.ids|
    ensures forall k :: s <= k < r ==> t.ids[k] != endId
    ensures t.ids[r] == endId || r == |t.ids| - 1
    decreases |t.ids| - s
  {
    if t.ids[s] == endId || s + 1 >= |t.ids| then s else WalkLast(t, s + 1, endId)
  }

  /** wstring::append(name, pos, n): the characters of name from pos, at
    * most n of them, a negative n standing for "all" (it converts to a huge
    * unsigned count); a position outside the name throws. */
  function Piece(name: string, pos: int, n: int): (r: Outcome<string>)
    ensures r.Aborted? <==> pos < 0 || pos > |name|
    ensures r.Done? ==> pos + |r.value| <= |name| && r.value == name[pos..pos + |r.value|]
    ensures r.Done? && n >= 0 ==> |r.value| == Min(n, |name| - pos)
    ensures r.Done? && n < 0 ==> |r.value| == |name| - pos
  {
    if pos < 0 || pos > |name| then Aborted
    else if n < 0 || pos + n > |name| then Done(name[pos..])
    else Done(name[pos..pos + n])
  }

  function Prepend(s: string, r: Outcome<string>): Outcome<string>
  {
    match r
    case Aborted => Aborted
    case Done(x) => Done(s + x)
  }

  lemma PrependPrepend(a: string, b: string, r: Outcome<string>)
    ensures Prepend(a, Prepend(b, r)) == Prepend(a + b, r)
  {
    if r.Done? {
      assert a + (b + r.value) == (a + b) + r.value;
    }
  }

  /** The text GetText collects from position i on, the first node read from
    * `offset`, every later one from 0; the end node only up to the end
    * offset. */
  function TextWalk(t: Nodes, i: nat, offset: int, e: TextPoint): Outcome<string>
    requires t.Aligned() && i < |t.ids|
    decreases |t.ids| - i
  {
    var name := t.names[i];
    var atEnd := t.ids[i] == e.id;
    var piece := Piece(name, offset, if atEnd then e.offset - offset else |name|);
    if piece.Aborted? then Aborted
    else if atEnd || i + 1 >= |t.ids| then piece
    else Prepend(piece.value, TextWalk(t, i + 1, 0, e))
  }

  function Truncate(s: string, maxLength: int): string
  {
    if maxLength < 0 || |s| <= maxLength then s else s[..maxLength]
  }

  /** GetText: the text of the walk, cut to maxLength when that is not
    * negative. */
  function GetTextSpec(t: Nodes, rg: Range, maxLength: int): Outcome<string>
    requires t.Aligned()
  {
    match IndexOf(t.ids, rg.start.id, Max64)
    case None => Aborted
    case Some(s) =>
      match TextWalk(t, s, rg.start.offset, rg.end)
      case Aborted => Aborted
      case Done(text) => Done(Truncate(text, maxLength))
  }

  /** A range inside one node reads that node's name from the start offset
    * to the end offset, or to the end of the name when the end offset lies
    * before the start or past the name. */
  lemma ReadWithinNode(t: Nodes, i: nat, s: int, e: int)
    requires Wf(t) && i < |t.ids| && 0 <= s <= |t.names[i]|
    ensures GetTextSpec(t, Range(TextPoint(t.ids[i], s), TextPoint(t.ids[i], e)), -1)
              == Done(t.names[i][s..if e < s || e > |t.names[i]| then |t.names[i]| else e])
  {
    FirstIndexOfUnique(t.ids, i);
    var name := t.names[i];
    assert TextWalk(t, i, s, TextPoint(t.ids[i], e)) == Piece(name, s, e - s);
  }

  /** A range inside one node reads that node's name between the offsets. */
  lemma GetTextWithinNode(t: Nodes, id: Id, s: int, e: int)
    requires Wf(t) && ExistsId(t, id)
    requires 0 <= s <= e <= |t.names[FirstIndex(t.ids, id)]|
    ensures GetTextSpec(t, Range(TextPoint(id, s), TextPoint(id, e)), -1)
              == Done(t.names[FirstIndex(t.ids, id)][s..e])
  {
    ReadWithinNode(t, FirstIndex(t.ids, id), s, e);
  }

  /** A cut result is the prefix of the uncut one, of the requested length
    * when the text is long enough. */
  lemma GetTextTruncates(t: Nodes, rg: Range, maxLength: nat)
    requires t.Aligned() && GetTextSpec(t, rg, -1).Done?
    ensures GetTextSpec(t, rg, maxLength).Done?
    ensures var full := GetTextSpec(t, rg, -1).value;
            var cut := GetTextSpec(t, rg, maxLength).value;
            |cut| == Min(maxLength, |full|) && cut == full[..|cut|]
  {
  }

  // ---------------------------------------------------------------------
  // get_DocumentRange

  /** The range a text provider reports for its element: for a document,
    * from offset 0 to the document's aggregate text length; for any other
    * type, no range. */
  function DocumentRange(t: Nodes, self: Id): (r: Outcome<Option<Range>>)
    requires t.Aligned()
    ensures r.Aborted? <==> !ExistsId(t, self)
    ensures r.Done? ==> (r.value.Some? <==> t.types[FirstIndex(t.ids, self)] == NodeType.Document)
    ensures r.Done? && r.value.Some? ==>
              r.value.value.start == TextPoint(self, 0) &&
              r.value.value.end == TextPoint(self, t.textLens[FirstIndex(t.ids, self)])
  {
    match IndexOf(t.ids, self, Max64)
    case None => Aborted
    case Some(i) =>
      if t.types[i] == NodeType.Document
      then Done(Some(Range(TextPoint(self, 0), TextPoint(self, t.textLens[i]))))
      else Done(None)
  }

  /** Reading a document's range yields the document's own name only: the
    * end offset is the aggregate length of the whole subtree, but the walk
    * stops at the document's own node and the read clamps to its name. */
  lemma DocumentRangeReadsOwnName(t: Nodes, self: Id)
    requires Wf(t) && TextLensAggregate(t)
    requires DocumentRange(t, self).Done? && DocumentRange(t, self).value.Some?
    ensures GetTextSpec(t, DocumentRange(t, self).value.value, -1)
              == Done(t.names[FirstIndex(t.ids, self)])
  {
    var i := FirstIndex(t.ids, self);
    TextLenCoversName(t, i);
    ReadWithinNode(t, i, 0, t.textLens[i]);
    assert t.names[i][0..|t.names[i]|] == t.names[i];
  }

  // ---------------------------------------------------------------------
  // FindText

  predicate MatchAt(name: string, needle: string, p: int)
  {
    0 <= p && p + |needle| <= |name| && name[p..p + |needle|] == needle
  }

  /** wstring::find(needle, pos): the first match at or after pos; a
    * negative pos converts to a huge unsigned position and finds nothing. */
  function FindFrom(name: string, needle: string, pos: int): (r: Option<nat>)
    ensures r.Some? ==> pos <= r.value && MatchAt(name, needle, r.value)
    ensures r.Some? ==> forall p :: pos <= p < r.value ==> !MatchAt(name, needle, p)
    ensures r.None? ==> pos < 0 || forall p :: pos <= p ==> !MatchAt(name, needle, p)
    decreases |name| - pos
  {
    if pos < 0 || pos + |needle| > |name| then None
    else if name[pos..pos + |needle|] == needle then Some(pos)
    else FindFrom(name, needle, pos + 1)
  }

  /** Whether the search stops at node i: at the end node, when there is no
    * match or the match does not end before the end offset (a negative end
    * offset converts to a huge unsigned one and never stops a match). */
  predicate StopsAt(t: Nodes, i: nat, pos: Option<nat>, needle: string, e: TextPoint)
    requires t.Aligned() && i < |t.ids|
  {
    t.ids[i] == e.id && (pos.None? || (e.offset >= 0 && pos.value + |needle| >= e.offset))
  }

  /** The search from position i on: the first node whose name holds the
    * needle (from `offset` in the first node, from 0 later) and whose match
    * is not cut off by the end. */
  function FindWalk(t: Nodes, i: nat, offset: int, needle: string, e: TextPoint): Option<Range>
    requires t.Aligned() && i < |t.ids|
    decreases |t.ids| - i
  {
    var pos := FindFrom(t.names[i], needle, offset);
    var stop := StopsAt(t, i, pos, needle, e);
    if pos.Some? && !stop then
      Some(Range(TextPoint(t.ids[i], pos.value), TextPoint(t.ids[i], pos.value + |needle|)))
    else if stop || i + 1 >= |t.ids| then None
    else FindWalk(t, i + 1, 0, needle, e)
  }

  /** FindText: null arguments and the unimplemented backward and
    * case-insensitive searches fail; otherwise the search runs from the
    * start point. */
  function FindTextSpec(t: Nodes, rg: Range, needle: Option<string>, backward: bool, ignoreCase: bool,
                        outNull: bool): Outcome<Answer<Option<Range>>>
    requires t.Aligned()
  {
    if outNull || needle.None? then Done(Fail(EPointer))
    else if backward || ignoreCase then Done(Fail(ENotImpl))
    else
      match IndexOf(t.ids, rg.start.id, Max64)
      case None => Aborted
      case Some(s) => Done(Ok(FindWalk(t, s, rg.start.offset, needle.value, rg.end)))
  }

  /** What the search finds lies inside one node, and reading it back gives
    * the needle. */
  lemma {:induction false} FindWalkReadsNeedle(t: Nodes, i: nat, offset: int, needle: string, e: TextPoint)
    requires Wf(t) && i < |t.ids| && FindWalk(t, i, offset, needle, e).Some?
    ensures var found := FindWalk(t, i, offset, needle, e).value;
            found.start.id == found.end.id &&
            found.end.offset == found.start.offset + |needle| &&
            GetTextSpec(t, found, -1) == Done(needle)
    decreases |t.ids| - i
  {
    var pos := FindFrom(t.names[i], needle, offset);
    if pos.Some? && !StopsAt(t, i, pos, needle, e) {
      FirstIndexOfUnique(t.ids, i);
      var p := pos.value;
      assert Piece(t.names[i], p, |needle|) == Done(t.names[i][p..p + |needle|]);
    } else {
      FindWalkReadsNeedle(t, i + 1, 0, needle, e);
    }
  }

  /** A match found in the end node ends strictly before the end offset
    * when that offset is not negative. */
  lemma {:induction false} FindWalkEndsBeforeEnd(t: Nodes, i: nat, offset: int, needle: string, e: TextPoint)
    requires t.Aligned() && i < |t.ids| && FindWalk(t, i, offset, needle, e).Some?
    requires FindWalk(t, i, offset, needle, e).value.start.id == e.id && e.offset >= 0
    ensures FindWalk(t, i, offset, needle, e).value.end.offset < e.offset
    decreases |t.ids| - i
  {
    var pos := FindFrom(t.names[i], needle, offset);
    if !(pos.Some? && !StopsAt(t, i, pos, needle, e)) {
      FindWalkEndsBeforeEnd(t, i + 1, 0, needle, e);
    }
  }

  /** A search over a document's range never leaves the document's own
    * node: the range ends at the document itself, so the walk stops there
    * and the text of the document's descendants is never searched. */
  lemma DocumentSearchStaysInDocument(t: Nodes, self: Id, needle: string)
    requires Wf(t)
    requires DocumentRange(t, self).Done? && DocumentRange(t, self).value.Some?
    ensures var found := FindTextSpec(t, DocumentRange(t, self).value.value, Some(needle), false, false, false);
            found.Done? && found.value.Ok? &&
            (found.value.value.Some? ==> found.value.value.value.start.id == self)
  {
    var rg := DocumentRange(t, self).value.value;
    var i := FirstIndex(t.ids, self);
    assert IndexOf(t.ids, self, Max64) == Some(i);
    assert t.ids[i] == rg.end.id;
  }

  /** The search is complete and answers the first match: when node k is
    * reached before any end node and holds the needle at p (at or after
    * the start offset in the first node) where the end does not cut it
    * off, the search finds a match no later than node k, and no later than
    * p when it is in node k. */
  lemma {:induction false} FindWalkFindsFirst(t: Nodes, i: nat, offset: int, needle: string, e: TextPoint,
                                              k: nat, p: int)
    requires t.Aligned() && i <= k < |t.ids|
    requires forall j :: i <= j < k ==> t.ids[j] != e.id
    requires MatchAt(t.names[k], needle, p) && (k == i ==> 0 <= offset <= p)
    requires t.ids[k] == e.id ==> e.offset < 0 || p + |needle| < e.offset
    ensures FindWalk(t, i, offset, needle, e).Some?
    ensures var found := FindWalk(t, i, offset, needle, e).value;
            exists j :: i <= j <= k && found.start.id == t.ids[j] && (j == k ==> found.start.offset <= p)
    decreases k - i
  {
    var pos := FindFrom(t.names[i], needle, offset);
    if k == i {
      assert pos.Some? && pos.value <= p;
    } else if pos.None? {
      FindWalkFindsFirst(t, i + 1, 0, needle, e, k, p);
      var found := FindWalk(t, i + 1, 0, needle, e).value;
      var j :| i + 1 <= j <= k && found.start.id == t.ids[j] && (j == k ==> found.start.offset <= p);
    }
  }

  // ---------------------------------------------------------------------
  // GetBoundingRectangles

  /** The box of node k as reported: clipped by the client rectangle (with
    * the program's intersection) and moved to screen coordinates. */
  function ClippedBox(t: Nodes, k: nat, client: Rect, origin: Point): Rect
    requires t.Aligned() && k < |t.ids|
  {
    Translate(Intersection(t.rects[k], client), origin)
  }

  predicate NotInverted(r: Rect)
  {
    r.left <= r.right && r.top <= r.bottom
  }

  /** The boxes of the nodes at positions lo up to (not including) hi, in
    * order, leaving out the ones that clip to an inverted rectangle. */
  function Boxes(t: Nodes, lo: nat, hi: nat, client: Rect, origin: Point): seq<Rect>
    requires t.Aligned() && lo <= hi <= |t.ids|
    decreases hi - lo
  {
    if lo == hi then []
    else
      var here := if NotInverted(Intersection(t.rects[hi - 1], client))
                  then [ClippedBox(t, hi - 1, client, origin)] else [];
      Boxes(t, lo, hi - 1, client, origin) + here
  }

  /** Every reported box is upright, lies between the client's left and
    * right edges and below its top edge, all in screen coordinates, and
    * there is at most one per visited node. */
  lemma {:induction false} BoxesWithinClient(t: Nodes, lo: nat, hi: nat, client: Rect, origin: Point)
    requires t.Aligned() && lo <= hi <= |t.ids|
    ensures |Boxes(t, lo, hi, client, origin)| <= hi - lo
    ensures forall b :: b in Boxes(t, lo, hi, client, origin) ==>
              NotInverted(b) &&
              client.left + origin.x <= b.left && b.right <= client.right + origin.x &&
              client.top + origin.y <= b.top
    decreases hi - lo
  {
    if lo < hi {
      BoxesWithinClient(t, lo, hi - 1, client, origin);
    }
  }

  // ---------------------------------------------------------------------
  // GetEnclosingElement

  /** The lockstep climb: lift both nodes one parent at a time until they
    * meet; reaching the root first aborts (the lookup of id 0). */
  function LockstepMeet(t: Nodes, a: nat, b: nat): (r: Outcome<nat>)
    requires Wf(t) && a < |t.ids| && b < |t.ids| && t.depths[a] == t.depths[b]
    ensures r.Done? ==> r.value < |t.ids|
    ensures r.Done? ==> AncOrSelf(t.ids, t.parents, r.value, a) && AncOrSelf(t.ids, t.parents, r.value, b)
    ensures r.Done? && a != b ==> r.value != a && r.value != b
    decreases a
  {
    if a == b then Done(a)
    else if t.parents[a] == 0 || t.parents[b] == 0 then Aborted
    else
      ParentFacts(t.ids, t.parents, t.depths, Max64, a);
      ParentFacts(t.ids, t.parents, t.depths, Max64, b);
      var r := LockstepMeet(t, ParentPos(t.ids, t.parents, a), ParentPos(t.ids, t.parents, b));
      if r.Done? then
        AncOrSelfBelow(t.ids, t.parents, r.value, ParentPos(t.ids, t.parents, a));
        AncOrSelfBelow(t.ids, t.parents, r.value, ParentPos(t.ids, t.parents, b));
        r
      else r
  }

  /** GetEnclosingElement: the element handed back is always the focused
    * one (the provider factory ignores its argument). Before that, a range
    * within one node needs nothing; otherwise both end nodes must exist,
    * have equal depth (the depth loops lift the shallower node, so any
    * difference climbs past the root) and meet below the root. */
  function EnclosingSpec(t: Nodes, rg: Range, focusedId: Id): (r: Outcome<Id>)
    requires Wf(t)
    ensures r.Done? ==> r.value == focusedId && ExistsId(t, focusedId)
  {
    var focused := if ExistsId(t, focusedId) then Done(focusedId) else Aborted;
    if rg.start.id == rg.end.id then focused
    else
      match (IndexOf(t.ids, rg.start.id, Max64), IndexOf(t.ids, rg.end.id, Max64))
      case (Some(i), Some(j)) =>
        if t.depths[i] != t.depths[j] then Aborted
        else if LockstepMeet(t, i, j).Aborted? then Aborted
        else focused
      case _ => Aborted
  }

  /** Endpoints at different depths always abort. */
  lemma EnclosingAbortsOnDepthMismatch(t: Nodes, rg: Range, focusedId: Id)
    requires Wf(t) && ExistsId(t, rg.start.id) && ExistsId(t, rg.end.id)
    requires t.depths[FirstIndex(t.ids, rg.start.id)] != t.depths[FirstIndex(t.ids, rg.end.id)]
    ensures EnclosingSpec(t, rg, focusedId).Aborted?
  {
  }

  /** ui_is_ancestor(candidate, of) as a walk over positions: some parent on
    * the chain above position j is the candidate. */
  function AncestorWalk(t: Nodes, candidate: int, j: nat): bool
    requires Wf(t) && j < |t.ids|
    decreases j
  {
    var p := t.parents[j];
    if p == candidate then true
    else if p == 0 then false
    else
      ParentFacts(t.ids, t.parents, t.depths, Max64, j);
      AncestorWalk(t, candidate, ParentPos(t.ids, t.parents, j))
  }

  /** The walk answers "is the node at position c a strict ancestor of the
    * node at position j". */
  lemma {:induction false} AncestorWalkIsStrictAncestor(t: Nodes, c: nat, j: nat)
    requires Wf(t) && c < |t.ids| && j < |t.ids|
    ensures AncestorWalk(t, t.ids[c], j) <==> c != j && AncOrSelf(t.ids, t.parents, c, j)
    decreases j
  {
    var p := t.parents[j];
    FirstIndexOfUnique(t.ids, c);
    if p != 0 {
      ParentFacts(t.ids, t.parents, t.depths, Max64, j);
      var q := ParentPos(t.ids, t.parents, j);
      AncestorWalkIsStrictAncestor(t, c, q);
      assert AncOrSelf(t.ids, t.parents, c, j) <==> c == j || AncOrSelf(t.ids, t.parents, c, q);
      if c == q {
        assert AncOrSelf(t.ids, t.parents, q, q);
      } else if AncOrSelf(t.ids, t.parents, c, q) {
        AncOrSelfBelow(t.ids, t.parents, c, q);
      }
    }
  }

  /** ui_get_parent_index: the position of the parent of the node with this
    * id; a top-level node's parent 0 fails the lookup. */
  function ParentIndex(t: Nodes, id: int): (r: Outcome<nat>)
    requires Wf(t)
    ensures r.Done? <==> ExistsId(t, id) && t.parents[FirstIndex(t.ids, id)] != 0
    ensures r.Done? ==> r.value < FirstIndex(t.ids, id) &&
                        t.ids[r.value] == t.parents[FirstIndex(t.ids, id)] &&
                        t.depths[r.value] == t.depths[FirstIndex(t.ids, id)] - 1
  {
    match IndexOf(t.ids, id, Max64)
    case None => Aborted
    case Some(i) =>
      if t.parents[i] == 0 then Aborted
      else
        ParentFacts(t.ids, t.parents, t.depths, Max64, i);
        assert ExistsId(t, t.parents[i]) by {
          assert t.ids[ParentPos(t.ids, t.parents, i)] == t.parents[i];
        }
        Done(FirstIndex(t.ids, t.parents[i]))
  }

  /** ui_is_ancestor: walk the parent chain of `of` looking for the
    * candidate; the walk looks up every id on the chain, so an `of` that
    * names no node aborts. */
  method IsAncestor(t: Nodes, candidate: int, of: Id) returns (r: Outcome<bool>)
    requires Wf(t)
    ensures of == 0 ==> r == Done(false)
    ensures of != 0 ==> (r.Aborted? <==> !ExistsId(t, of))
    ensures r.Done? && of != 0 ==> ExistsId(t, of) && r.value == AncestorWalk(t, candidate, FirstIndex(t.ids, of))
  {
    ghost var answer := if ExistsId(t, of) then AncestorWalk(t, candidate, FirstIndex(t.ids, of)) else false;
    var id: Id := of;
    while id != 0
      invariant id != of ==> ExistsId(t, of) && (id == 0 || ExistsId(t, id))
      invariant id != 0 && ExistsId(t, id) ==> AncestorWalk(t, candidate, FirstIndex(t.ids, id)) == answer
      invariant id == 0 && of != 0 ==> !answer
      decreases if id == 0 then 0 else if ExistsId(t, id) then FirstIndex(t.ids, id) + 2 else |t.ids| + 2
    {
      var found: bool, index: nat := GetIndex(t.ids, id, Max64);
      if !found {
        return Aborted;
      }
      var parent := t.parents[index];
      if parent == candidate {
        return Done(true);
      }
      if parent != 0 {
        ParentFacts(t.ids, t.parents, t.depths, Max64, index);
        assert t.ids[ParentPos(t.ids, t.parents, index)] == parent;
      }
      id := parent;
    }
    r := Done(false);
  }

  /** One depth loop of GetEnclosingElement: while the node at i is
    * shallower than the node at j, replace it by its parent. Climbing only
    * makes it shallower, so the loop runs until a top-level node looks up
    * parent 0 and aborts; it leaves i alone when i is not shallower. */
  method LiftShallower(t: Nodes, i: nat, j: nat) returns (aborted: bool, k: nat)
    requires Wf(t) && i < |t.ids| && j < |t.ids|
    ensures aborted <==> t.depths[i] < t.depths[j]
    ensures !aborted ==> k == i
  {
    k := i;
    while t.depths[k] < t.depths[j]
      invariant k < |t.ids|
      invariant k == i || t.depths[k] < t.depths[i] < t.depths[j]
      decreases k
    {
      var found: bool, p: nat := GetIndex(t.ids, t.parents[k], Max64);
      if !found {
        return true, k;
      }
      ParentFacts(t.ids, t.parents, t.depths, Max64, k);
      k := p;
    }
    aborted := false;
  }

  /** The lockstep loop of GetEnclosingElement: lift both nodes to their
    * parents until their ids agree. */
  method ClimbLockstep(t: Nodes, i: nat, j: nat) returns (r: Outcome<nat>)
    requires Wf(t) && i < |t.ids| && j < |t.ids| && t.depths[i] == t.depths[j]
    ensures r == LockstepMeet(t, i, j)
  {
    var a: nat, b: nat := i, j;
    while t.ids[a] != t.ids[b]
      invariant a < |t.ids| && b < |t.ids| && t.depths[a] == t.depths[b]
      invariant LockstepMeet(t, a, b) == LockstepMeet(t, i, j)
      decreases a
    {
      var foundP: bool, p: nat := GetIndex(t.ids, t.parents[a], Max64);
      if !foundP {
        return Aborted;
      }
      var foundQ: bool, q: nat := GetIndex(t.ids, t.parents[b], Max64);
      if !foundQ {
        return Aborted;
      }
      ParentFacts(t.ids, t.parents, t.depths, Max64, a);
      ParentFacts(t.ids, t.parents, t.depths, Max64, b);
      a, b := p, q;
    }
    FirstIndexOfUnique(t.ids, a);
    FirstIndexOfUnique(t.ids, b);
    r := Done(a);
  }

  /** The two checks GetEnclosingElement makes on the meeting node hold:
    * it is an ancestor of both end nodes. */
  lemma MeetPassesAncestorChecks(t: Nodes, i: nat, j: nat)
    requires Wf(t) && i < |t.ids| && j < |t.ids| && i != j && t.depths[i] == t.depths[j]
    requires LockstepMeet(t, i, j).Done?
    ensures AncestorWalk(t, t.ids[LockstepMeet(t, i, j).value], i)
    ensures AncestorWalk(t, t.ids[LockstepMeet(t, i, j).value], j)
  {
    var m := LockstepMeet(t, i, j).value;
    AncestorWalkIsStrictAncestor(t, m, i);
    AncestorWalkIsStrictAncestor(t, m, j);
  }

  // ---------------------------------------------------------------------
  // ExpandToEnclosingUnit and Move

  /** ExpandToEnclosingUnit: whatever the unit, the range grows to the start
    * of its start node and the end of its end node's name. Only the end id
    * is looked up. */
  function Expanded(t: Nodes, rg: Range): (r: Outcome<Range>)
    requires t.Aligned()
    ensures r.Aborted? <==> !ExistsId(t, rg.end.id)
    ensures r.Done? ==> r.value.start == TextPoint(rg.start.id, 0) && r.value.end.id == rg.end.id
    ensures r.Done? ==> r.value.end.offset == |t.names[FirstIndex(t.ids, rg.end.id)]|
  {
    match IndexOf(t.ids, rg.end.id, Max64)
    case None => Aborted
    case Some(j) => Done(Range(TextPoint(rg.start.id, 0), TextPoint(rg.end.id, |t.names[j]|)))
  }

  /** Expanding twice is expanding once. */
  lemma ExpandIdempotent(t: Nodes, rg: Range)
    requires t.Aligned() && Expanded(t, rg).Done?
    ensures Expanded(t, Expanded(t, rg).value) == Expanded(t, rg)
  {
  }

  /** An expanded range within one node reads that node's whole name. */
  lemma ExpandedReadsWholeName(t: Nodes, rg: Range)
    requires Wf(t) && rg.start.id == rg.end.id && Expanded(t, rg).Done?
    ensures GetTextSpec(t, Expanded(t, rg).value, -1) == Done(t.names[FirstIndex(t.ids, rg.end.id)])
  {
    var j := FirstIndex(t.ids, rg.end.id);
    ReadWithinNode(t, j, 0, |t.names[j]|);
    assert Expanded(t, rg).value == Range(TextPoint(t.ids[j], 0), TextPoint(t.ids[j], |t.names[j]|));
    assert t.names[j][0..|t.names[j]|] == t.names[j];
  }

  /** The normalisation of Move: climb from position i to the nearest
    * ancestor-or-self of the given type; climbing past a top-level node
    * looks up id 0 and aborts. */
  function NormalizeTo(t: Nodes, i: nat, ty: NodeType): (r: Outcome<nat>)
    requires Wf(t) && i < |t.ids|
    ensures r.Done? ==> r.value <= i && t.types[r.value] == ty && AncOrSelf(t.ids, t.parents, r.value, i)
    decreases i
  {
    if t.types[i] == ty then Done(i)
    else if t.parents[i] == 0 then Aborted
    else
      ParentFacts(t.ids, t.parents, t.depths, Max64, i);
      var r := NormalizeTo(t, ParentPos(t.ids, t.parents, i), ty);
      r
  }

  /** The normalisation aborts exactly when no ancestor-or-self has the
    * type. */
  lemma {:induction false} NormalizeAbortsIffNoAncestor(t: Nodes, i: nat, ty: NodeType)
    requires Wf(t) && i < |t.ids|
    ensures NormalizeTo(t, i, ty).Aborted? <==>
              forall a :: 0 <= a < |t.ids| && AncOrSelf(t.ids, t.parents, a, i) ==> t.types[a] != ty
    decreases i
  {
    if t.types[i] != ty {
      if t.parents[i] == 0 {
        forall a | 0 <= a < |t.ids| && AncOrSelf(t.ids, t.parents, a, i)
          ensures t.types[a] != ty
        {
          assert a == i;
        }
      } else {
        ParentFacts(t.ids, t.parents, t.depths, Max64, i);
        var q := ParentPos(t.ids, t.parents, i);
        NormalizeAbortsIffNoAncestor(t, q, ty);
        forall a | 0 <= a < |t.ids| && a != i
          ensures AncOrSelf(t.ids, t.parents, a, i) <==> AncOrSelf(t.ids, t.parents, a, q)
        {
        }
      }
    }
  }

  /** The advance of Move: scan from position i in direction inc, taking
    * each node of the type as a step (the first one the start node
    * itself), until `left` steps are taken or the list ends. */
  function Advance(t: Nodes, i: int, left: nat, inc: int, ty: NodeType, cur: nat): (r: nat)
    requires t.Aligned() && cur < |t.ids| && (inc == 1 || inc == -1) && -1 <= i <= |t.ids|
    requires inc == 1 ==> cur <= i
    requires inc == -1 ==> i <= cur
    ensures r < |t.ids| && (r == cur || t.types[r] == ty)
    ensures inc == 1 ==> cur <= r
    ensures inc == -1 ==> r <= cur
    decreases if inc == 1 then |t.ids| - i else i + 1
  {
    if i < 0 || i >= |t.ids| || left == 0 then cur
    else if t.types[i] == ty then Advance(t, i + inc, left - 1, inc, ty, i)
    else Advance(t, i + inc, left, inc, ty, cur)
  }

  function Abs(x: int): nat { if x < 0 then -x else x }

  /** A move by one unit lands back on the node it started from. */
  lemma MoveByOneStaysPut(t: Nodes, i: nat, ty: NodeType)
    requires t.Aligned() && i < |t.ids| && t.types[i] == ty
    ensures Advance(t, i, 1, 1, ty, i) == i && Advance(t, i, 1, -1, ty, i) == i
  {
  }

  /** A move by two units forward reaches the next node of the type when
    * there is one. */
  lemma MoveByTwoReachesNext(t: Nodes, i: nat, k: nat, ty: NodeType)
    requires t.Aligned() && i < k < |t.ids| && t.types[i] == ty && t.types[k] == ty
    requires forall m :: i < m < k ==> t.types[m] != ty
    ensures Advance(t, i, 2, 1, ty, i) == k
  {
    SkipUntyped(t, i + 1, k, 1, ty, i);
  }

  lemma {:induction false} SkipUntyped(t: Nodes, i: nat, k: nat, left: nat, ty: NodeType, cur: nat)
    requires t.Aligned() && cur < i <= k < |t.ids| && left >= 1 && t.types[k] == ty
    requires forall m :: i <= m < k ==> t.types[m] != ty
    ensures Advance(t, i, left, 1, ty, cur) == Advance(t, k + 1, left - 1, 1, ty, k)
    decreases k - i
  {
    if i < k {
      SkipUntyped(t, i + 1, k, left, ty, cur);
    }
  }

  /** The number of nodes of the type at positions a up to b (excluded). */
  function CountTyped(t: Nodes, a: nat, b: nat, ty: NodeType): (n: nat)
    requires t.Aligned() && a <= b <= |t.ids|
    ensures n <= b - a
    decreases b - a
  {
    if a == b then 0 else (if t.types[a] == ty then 1 else 0) + CountTyped(t, a + 1, b, ty)
  }

  lemma {:induction false} CountTypedSplit(t: Nodes, a: nat, m: nat, b: nat, ty: NodeType)
    requires t.Aligned() && a <= m <= b <= |t.ids|
    ensures CountTyped(t, a, b, ty) == CountTyped(t, a, m, ty) + CountTyped(t, m, b, ty)
    decreases m - a
  {
    if a < m {
      CountTypedSplit(t, a + 1, m, b, ty);
    }
  }

  /** A forward advance by `left` steps from position i stays put when there
    * is nothing to take, and otherwise stops on the node of the type that
    * is the n-th one from i, n being the smaller of `left` and the number
    * of such nodes from i to the end. */
  predicate ForwardNth(t: Nodes, i: nat, left: nat, ty: NodeType, cur: nat)
    requires t.Aligned() && cur < |t.ids| && cur <= i <= |t.ids|
  {
    var r := Advance(t, i, left, 1, ty, cur);
    (left == 0 || CountTyped(t, i, |t.ids|, ty) == 0 ==> r == cur) &&
    (left > 0 && CountTyped(t, i, |t.ids|, ty) > 0 ==>
       i <= r && t.types[r] == ty &&
       CountTyped(t, i, r + 1, ty) == Min(left, CountTyped(t, i, |t.ids|, ty)))
  }

  /** The mirror image: a backward advance from position i stops on the
    * n-th node of the type counting down from i, n being the smaller of
    * `left` and the number of such nodes from the start up to i. */
  predicate BackwardNth(t: Nodes, i: int, left: nat, ty: NodeType, cur: nat)
    requires t.Aligned() && cur < |t.ids| && -1 <= i && i <= cur
  {
    var r := Advance(t, i, left, -1, ty, cur);
    (left == 0 || CountTyped(t, 0, i + 1, ty) == 0 ==> r == cur) &&
    (left > 0 && CountTyped(t, 0, i + 1, ty) > 0 ==>
       r <= i && t.types[r] == ty &&
       CountTyped(t, r, i + 1, ty) == Min(left, CountTyped(t, 0, i + 1, ty)))
  }

  lemma ForwardTypedStep(t: Nodes, i: nat, left: nat, ty: NodeType, cur: nat)
    requires t.Aligned() && cur < |t.ids| && cur <= i < |t.ids| && left > 0 && t.types[i] == ty
    requires ForwardNth(t, i + 1, left - 1, ty, i)
    ensures ForwardNth(t, i, left, ty, cur)
  {
    var rest := CountTyped(t, i + 1, |t.ids|, ty);
    assert CountTyped(t, i, |t.ids|, ty) == 1 + rest;
    assert Advance(t, i, left, 1, ty, cur) == Advance(t, i + 1, left - 1, 1, ty, i);
    var r := Advance(t, i + 1, left - 1, 1, ty, i);
    if left > 1 && rest > 0 {
      CountTypedSplit(t, i, i + 1, r + 1, ty);
      assert CountTyped(t, i, i + 1, ty) == 1 by {
        assert CountTyped(t, i + 1, i + 1, ty) == 0;
      }
    } else {
      assert r == i;
      assert CountTyped(t, i, i + 1, ty) == 1 by {
        assert CountTyped(t, i + 1, i + 1, ty) == 0;
      }
    }
  }

  lemma ForwardUntypedStep(t: Nodes, i: nat, left: nat, ty: NodeType, cur: nat)
    requires t.Aligned() && cur < |t.ids| && cur <= i < |t.ids| && left > 0 && t.types[i] != ty
    requires ForwardNth(t, i + 1, left, ty, cur)
    ensures ForwardNth(t, i, left, ty, cur)
  {
    var rest := CountTyped(t, i + 1, |t.ids|, ty);
    assert CountTyped(t, i, |t.ids|, ty) == rest;
    assert Advance(t, i, left, 1, ty, cur) == Advance(t, i + 1, left, 1, ty, cur);
    if rest > 0 {
      var r := Advance(t, i + 1, left, 1, ty, cur);
      CountTypedSplit(t, i, i + 1, r + 1, ty);
      assert CountTyped(t, i, i + 1, ty) == 0 by {
        assert CountTyped(t, i + 1, i + 1, ty) == 0;
      }
    }
  }

  lemma {:induction false} AdvanceForwardTakesNth(t: Nodes, i: nat, left: nat, ty: NodeType, cur: nat)
    requires t.Aligned() && cur < |t.ids| && cur <= i <= |t.ids|
    ensures ForwardNth(t, i, left, ty, cur)
    decreases |t.ids| - i
  {
    if i < |t.ids| && left > 0 {
      if t.types[i] == ty {
        AdvanceForwardTakesNth(t, i + 1, left - 1, ty, i);
        ForwardTypedStep(t, i, left, ty, cur);
      } else {
        AdvanceForwardTakesNth(t, i + 1, left, ty, cur);
        ForwardUntypedStep(t, i, left, ty, cur);
      }
    }
  }

  /** Counting down past position i adds its node when it has the type. */
  lemma CountTypedBelow(t: Nodes, i: nat, ty: NodeType)
    requires t.Aligned() && i < |t.ids|
    ensures CountTyped(t, 0, i + 1, ty) == CountTyped(t, 0, i, ty) + (if t.types[i] == ty then 1 else 0)
    ensures CountTyped(t, i, i + 1, ty) == (if t.types[i] == ty then 1 else 0)
  {
    CountTypedSplit(t, 0, i, i + 1, ty);
    assert CountTyped(t, i + 1, i + 1, ty) == 0;
  }

  lemma BackwardTypedStep(t: Nodes, i: nat, left: nat, ty: NodeType, cur: nat)
    requires t.Aligned() && cur < |t.ids| && i <= cur && left > 0 && t.types[i] == ty
    requires BackwardNth(t, i - 1, left - 1, ty, i)
    ensures BackwardNth(t, i, left, ty, cur)
  {
    CountTypedBelow(t, i, ty);
    var below := CountTyped(t, 0, i, ty);
    assert Advance(t, i, left, -1, ty, cur) == Advance(t, i - 1, left - 1, -1, ty, i);
    if left > 1 && below > 0 {
      var r := Advance(t, i - 1, left - 1, -1, ty, i);
      CountTypedSplit(t, r, i, i + 1, ty);
    }
  }

  lemma BackwardUntypedStep(t: Nodes, i: nat, left: nat, ty: NodeType, cur: nat)
    requires t.Aligned() && cur < |t.ids| && i <= cur && left > 0 && t.types[i] != ty
    requires BackwardNth(t, i - 1, left, ty, cur)
    ensures BackwardNth(t, i, left, ty, cur)
  {
    CountTypedBelow(t, i, ty);
    var below := CountTyped(t, 0, i, ty);
    assert Advance(t, i, left, -1, ty, cur) == Advance(t, i - 1, left, -1, ty, cur);
    if below > 0 {
      var r := Advance(t, i - 1, left, -1, ty, cur);
      CountTypedSplit(t, r, i, i + 1, ty);
    }
  }

  lemma {:induction false} AdvanceBackwardTakesNth(t: Nodes, i: int, left: nat, ty: NodeType, cur: nat)
    requires t.Aligned() && cur < |t.ids| && -1 <= i && i <= cur
    ensures BackwardNth(t, i, left, ty, cur)
    decreases i + 1
  {
    if i >= 0 && left > 0 {
      if t.types[i] == ty {
        AdvanceBackwardTakesNth(t, i - 1, left - 1, ty, i);
        BackwardTypedStep(t, i, left, ty, cur);
      } else {
        AdvanceBackwardTakesNth(t, i - 1, left, ty, cur);
        BackwardUntypedStep(t, i, left, ty, cur);
      }
    }
  }

  /** Move's advance for every non-zero count: starting on a node of the
    * type, which counts as the first step, it stops on the n-th node of the
    * type in the count's direction, n being the smaller of |count| and the
    * number of such nodes that way. */
  lemma MoveTakesNthUnit(t: Nodes, n: nat, count: int, ty: NodeType)
    requires t.Aligned() && n < |t.ids| && t.types[n] == ty && count != 0
    ensures var k := Advance(t, n, Abs(count), if count > 0 then 1 else -1, ty, n);
            t.types[k] == ty &&
            (count > 0 ==> n <= k && CountTyped(t, n, k + 1, ty) == Min(count, CountTyped(t, n, |t.ids|, ty))) &&
            (count < 0 ==> k <= n && CountTyped(t, k, n + 1, ty) == Min(-count, CountTyped(t, 0, n + 1, ty)))
  {
    CountTypedSplit(t, 0, n, n + 1, ty);
    assert CountTyped(t, n, n + 1, ty) == 1 by {
      assert CountTyped(t, n + 1, n + 1, ty) == 0;
    }
    CountTypedSplit(t, n, n + 1, |t.ids|, ty);
    if count > 0 {
      AdvanceForwardTakesNth(t, n, count, ty, n);
    } else {
      AdvanceBackwardTakesNth(t, n, -count, ty, n);
    }
  }

  function UnitType(unit: TextUnit): NodeType
  {
    if unit == DocumentUnit then NodeType.Document else NodeType.Text
  }

  /** The range covering the whole text of node k. */
  function NodeRange(t: Nodes, k: nat): Range
    requires t.Aligned() && k < |t.ids|
  {
    Range(TextPoint(t.ids[k], 0), TextPoint(t.ids[k], t.textLens[k]))
  }

  /** Move: an empty range stays as it is; units the model of text does not
    * have fail; a page does not move; a document or paragraph move first
    * climbs to the enclosing node of that type, then advances by `count`
    * nodes of it (a zero count divides by zero), and the range becomes the
    * whole node it lands on. */
  function MoveSpec(t: Nodes, rg: Range, unit: TextUnit, count: int): (r: Outcome<(HResult, Range)>)
    requires Wf(t)
    ensures r.Done? && r.value.0 != SOk ==> r.value.1 == rg
    ensures r.Done? && unit in {LineUnit, WordUnit, CharacterUnit, FormatUnit} ==> r.value.0 == ENotImpl || rg.start == rg.end
  {
    if rg.start == rg.end then Done((SOk, rg))
    else if unit in {LineUnit, WordUnit, CharacterUnit, FormatUnit} then Done((ENotImpl, rg))
    else
      match IndexOf(t.ids, rg.start.id, Max64)
      case None => Aborted
      case Some(s) =>
        if unit == PageUnit then Done((SOk, NodeRange(t, s)))
        else
          match NormalizeTo(t, s, UnitType(unit))
          case Aborted => Aborted
          case Done(n) =>
            if count == 0 then Aborted
            else Done((SOk, NodeRange(t, Advance(t, n, Abs(count), if count > 0 then 1 else -1, UnitType(unit), n))))
  }

  /** After a successful document or paragraph move, the range covers one
    * whole node of that type and reads back as the node's own name. */
  lemma MovedRangeCoversOneNode(t: Nodes, rg: Range, unit: TextUnit, count: int)
    requires Wf(t) && TextLensAggregate(t) && rg.start != rg.end && unit in {DocumentUnit, ParagraphUnit}
    requires MoveSpec(t, rg, unit, count).Done?
    ensures var moved := MoveSpec(t, rg, unit, count).value.1;
            moved.start.id == moved.end.id && moved.start.offset == 0 &&
            ExistsId(t, moved.start.id) &&
            t.types[FirstIndex(t.ids, moved.start.id)] == UnitType(unit) &&
            GetTextSpec(t, moved, -1) == Done(t.names[FirstIndex(t.ids, moved.start.id)])
  {
    var s := IndexOf(t.ids, rg.start.id, Max64).value;
    var n := NormalizeTo(t, s, UnitType(unit)).value;
    var k := Advance(t, n, Abs(count), if count > 0 then 1 else -1, UnitType(unit), n);
    FirstIndexOfUnique(t.ids, k);
    TextLenCoversName(t, k);
    ReadWithinNode(t, k, 0, t.textLens[k]);
    assert t.names[k][0..|t.names[k]|] == t.names[k];
  }

  /** The status codes of the operations the range provider does not
    * implement. */
  datatype UnsupportedOp =
    | AddToSelection | FindAttribute | GetAttributeValue | MoveEndpointByRange
    | MoveEndpointByUnit | RemoveFromSelection | ScrollIntoView | Select

  function UnsupportedResult(op: UnsupportedOp): (r: HResult)
    ensures r != SOk
    ensures r == EUnexpected <==> op == AddToSelection
  {
    if op == AddToSelection then EUnexpected else ENotImpl
  }

  // ---------------------------------------------------------------------
  // The loops of Move, over the node list

  /** The climb of Move's normalisation step. */
  method ClimbToType(t: Nodes, start: nat, ty: NodeType) returns (r: Outcome<nat>)
    requires Wf(t) && start < |t.ids|
    ensures r == NormalizeTo(t, start, ty)
  {
    var index: nat := start;
    while t.types[index] != ty
      invariant index < |t.ids|
      invariant NormalizeTo(t, index, ty) == NormalizeTo(t, start, ty)
      decreases index
    {
      var id := t.parents[index];
      var found: bool, next: nat := GetIndex(t.ids, id, Max64);
      if !found {
        return Aborted;
      }
      ParentFacts(t.ids, t.parents, t.depths, Max64, index);
      index := next;
    }
    r := Done(index);
  }

  /** advance_by_type: check the start node's type, then step through the
    * list in the direction of count's sign. */
  method AdvanceByType(t: Nodes, index: nat, count: int, ty: NodeType) returns (r: Outcome<nat>)
    requires t.Aligned() && index < |t.ids|
    ensures r.Aborted? <==> t.types[index] != ty || count == 0
    ensures r.Done? ==> r.value == Advance(t, index, Abs(count), if count > 0 then 1 else -1, ty, index)
  {
    if t.types[index] != ty || count == 0 {
      return Aborted;
    }
    var numSteps := Abs(count);
    var inc := if count > 0 then 1 else -1;
    var steps := 0;
    var i: int := index;
    var cur := index;
    while 0 <= i < |t.ids| && steps < numSteps
      invariant -1 <= i <= |t.ids| && cur < |t.ids| && steps <= numSteps
      invariant inc == 1 ==> cur <= i
      invariant inc == -1 ==> i <= cur
      invariant Advance(t, i, numSteps - steps, inc, ty, cur) == Advance(t, index, numSteps, inc, ty, index)
      decreases if inc == 1 then |t.ids| - i else i + 1
    {
      if t.types[i] == ty {
        cur := i;
        steps := steps + 1;
      }
      i := i + inc;
    }
    r := Done(cur);
  }

  // ---------------------------------------------------------------------
  // The range provider

  class TextRangeProvider {
    var start: TextPoint
    var end: TextPoint

    constructor (start: TextPoint, end: TextPoint)
      ensures this.start == start && this.end == end
    {
      this.start := start;
      this.end := end;
    }

    function Current(): Range
      reads this
    {
      Range(start, end)
    }

    /** Clone: a new provider over the same range. */
    method Clone() returns (c: TextRangeProvider)
      ensures fresh(c) && c.Current() == Current()
    {
      c := new TextRangeProvider(start, end);
    }

    /** GetText: append each visited node's piece, then cut to maxLength. */
    method GetText(t: Nodes, maxLength: int) returns (r: Outcome<string>)
      requires Wf(t)
      ensures r == GetTextSpec(t, Current(), maxLength)
    {
      var found: bool, i: nat := GetIndex(t.ids, start.id, Max64);
      if !found {
        return Aborted;
      }
      ghost var whole := TextWalk(t, i, start.offset, end);
      var text := "";
      assert whole.Done? ==> "" + whole.value == whole.value;
      var offset := start.offset;
      var reachedEnd := false;
      while !reachedEnd
        invariant i < |t.ids|
        invariant !reachedEnd ==> whole == Prepend(text, TextWalk(t, i, offset, end))
        invariant reachedEnd ==> whole == Done(text)
        decreases |t.ids| - i, if reachedEnd then 0 else 1
      {
        var name := t.names[i];
        var atEnd := t.ids[i] == end.id;
        var piece := Piece(name, offset, if atEnd then end.offset - offset else |name|);
        if piece.Aborted? {
          return Aborted;
        }
        PrependPrepend(text, piece.value, if atEnd || i + 1 >= |t.ids| then Done([]) else TextWalk(t, i + 1, 0, end));
        assert piece.value + [] == piece.value;
        text := text + piece.value;
        if atEnd {
          reachedEnd := true;
        } else if i + 1 >= |t.ids| {
          reachedEnd := true;
        } else {
          i := i + 1;
          offset := 0;
        }
      }
      r := Done(Truncate(text, maxLength));
    }

    /** FindText: the forward search over the visited nodes. */
    method FindText(t: Nodes, needle: Option<string>, backward: bool, ignoreCase: bool, outNull: bool)
      returns (r: Outcome<Answer<Option<Range>>>)
      requires Wf(t)
      ensures r == FindTextSpec(t, Current(), needle, backward, ignoreCase, outNull)
    {
      if outNull || needle.None? {
        return Done(Fail(EPointer));
      }
      if backward || ignoreCase {
        return Done(Fail(ENotImpl));
      }
      var text := needle.value;
      var found: bool, i: nat := GetIndex(t.ids, start.id, Max64);
      if !found {
        return Aborted;
      }
      ghost var answer := FindWalk(t, i, start.offset, text, end);
      var offset := start.offset;
      var reachedEnd := false;
      var result: Option<Range> := None;
      while !reachedEnd && result.None?
        invariant i < |t.ids|
        invariant !reachedEnd && result.None? ==> FindWalk(t, i, offset, text, end) == answer
        invariant result.Some? ==> result == answer
        invariant reachedEnd && result.None? ==> answer.None?
        decreases |t.ids| - i, if reachedEnd || result.Some? then 0 else 1
      {
        var pos := FindFrom(t.names[i], text, offset);
        if t.ids[i] == end.id {
          reachedEnd := pos.None? || (end.offset >= 0 && pos.value + |text| >= end.offset);
        }
        if pos.Some? && !reachedEnd {
          result := Some(Range(TextPoint(t.ids[i], pos.value), TextPoint(t.ids[i], pos.value + |text|)));
        }
        if i + 1 < |t.ids| {
          i := i + 1;
          offset := 0;
        } else {
          reachedEnd := true;
        }
      }
      r := Done(Ok(result));
    }

    /** GetChildren: one entry per visited node while the offset is 0, and
      * the offset is never reset; each entry is the focused element. */
    method GetChildren(t: Nodes, focusedId: Id) returns (r: Outcome<seq<Id>>)
      requires Wf(t)
      ensures r.Aborted? <==> !ExistsId(t, start.id) || (start.offset == 0 && !ExistsId(t, focusedId))
      ensures r.Done? ==>
                |r.value| == (if start.offset == 0
                              then WalkLast(t, FirstIndex(t.ids, start.id), end.id) - FirstIndex(t.ids, start.id) + 1
                              else 0)
      ensures r.Done? ==> forall k :: 0 <= k < |r.value| ==> r.value[k] == focusedId
    {
      var found: bool, i: nat := GetIndex(t.ids, start.id, Max64);
      if !found {
        return Aborted;
      }
      ghost var s := i;
      var children: seq<Id> := [];
      var offset := start.offset;
      var reachedEnd := false;
      while !reachedEnd
        invariant s <= i < |t.ids| && WalkLast(t, i, end.id) == WalkLast(t, s, end.id)
        invariant reachedEnd ==> i == WalkLast(t, s, end.id)
        invariant |children| == (if offset == 0 then i - s + (if reachedEnd then 1 else 0) else 0)
        invariant forall k :: 0 <= k < |children| ==> children[k] == focusedId
        invariant offset == start.offset
        invariant offset == 0 && (i > s || reachedEnd) ==> ExistsId(t, focusedId)
        decreases |t.ids| - i, if reachedEnd then 0 else 1
      {
        if offset == 0 {
          if !ExistsId(t, focusedId) {
            return Aborted;
          }
          children := children + [focusedId];
        }
        if t.ids[i] == end.id {
          reachedEnd := true;
        } else if i + 1 >= |t.ids| {
          reachedEnd := true;
        } else {
          i := i + 1;
        }
      }
      r := Done(children);
    }

    /** GetBoundingRectangles, with the client rectangle and its screen
      * origin as inputs. */
    method GetBoundingRectangles(t: Nodes, client: Rect, origin: Point) returns (r: Outcome<seq<Rect>>)
      requires Wf(t)
      ensures r.Aborted? <==> !ExistsId(t, start.id)
      ensures r.Done? ==>
                r.value == Boxes(t, FirstIndex(t.ids, start.id), WalkLast(t, FirstIndex(t.ids, start.id), end.id) + 1, client, origin)
    {
      var found: bool, i: nat := GetIndex(t.ids, start.id, Max64);
      if !found {
        return Aborted;
      }
      ghost var s := i;
      ghost var last := WalkLast(t, s, end.id);
      var rects: seq<Rect> := [];
      var reachedEnd := false;
      while !reachedEnd
        invariant s <= i <= last && WalkLast(t, i, end.id) == last
        invariant !reachedEnd ==> rects == Boxes(t, s, i, client, origin)
        invariant reachedEnd ==> i == last && rects == Boxes(t, s, i + 1, client, origin)
        decreases |t.ids| - i, if reachedEnd then 0 else 1
      {
        var box := Intersection(t.rects[i], client);
        if box.left <= box.right && box.top <= box.bottom {
          rects := rects + [Translate(box, origin)];
        }
        if t.ids[i] == end.id {
          reachedEnd := true;
        }
        if i + 1 < |t.ids| && !reachedEnd {
          i := i + 1;
        } else {
          reachedEnd := true;
        }
      }
      r := Done(rects);
    }

    /** GetEnclosingElement: the depth loops, the lockstep climb, then the
      * focused element. */
    method GetEnclosingElement(t: Nodes, focusedId: Id) returns (r: Outcome<Id>)
      requires Wf(t)
      ensures r == EnclosingSpec(t, Current(), focusedId)
    {
      if start.id != end.id {
        var foundI: bool, i: nat := GetIndex(t.ids, start.id, Max64);
        if !foundI {
          return Aborted;
        }
        var foundJ: bool, j: nat := GetIndex(t.ids, end.id, Max64);
        if !foundJ {
          return Aborted;
        }
        var abortedI: bool, abortedJ: bool;
        abortedI, i := LiftShallower(t, i, j);
        if abortedI {
          return Aborted;
        }
        abortedJ, j := LiftShallower(t, j, i);
        if abortedJ {
          return Aborted;
        }
        var meet := ClimbLockstep(t, i, j);
        if meet.Aborted? {
          return Aborted;
        }
        MeetPassesAncestorChecks(t, i, j);
      }
      r := if ExistsId(t, focusedId) then Done(focusedId) else Aborted;
    }

    /** ExpandToEnclosingUnit: the unit is ignored. */
    method ExpandToEnclosingUnit(t: Nodes, unit: TextUnit) returns (aborted: bool)
      requires t.Aligned()
      modifies this
      ensures aborted <==> Expanded(t, old(Current())).Aborted?
      ensures !aborted ==> Current() == Expanded(t, old(Current())).value
    {
      var found: bool, j: nat := GetIndex(t.ids, end.id, Max64);
      if !found {
        return true;
      }
      start := TextPoint(start.id, 0);
      end := TextPoint(end.id, |t.names[j]|);
      aborted := false;
    }

    /** Move: the range is replaced by the whole node the move lands on;
      * the count of steps taken is not reported. */
    method Move(t: Nodes, unit: TextUnit, count: int) returns (r: Outcome<HResult>)
      requires Wf(t)
      modifies this
      ensures var spec := MoveSpec(t, old(Current()), unit, count);
              (r.Aborted? <==> spec.Aborted?) &&
              (r.Done? ==> r.value == spec.value.0 && Current() == spec.value.1)
    {
      if start == end {
        return Done(SOk);
      }
      if unit in {LineUnit, WordUnit, CharacterUnit, FormatUnit} {
        return Done(ENotImpl);
      }
      var found: bool, s: nat := GetIndex(t.ids, start.id, Max64);
      if !found {
        return Aborted;
      }
      var k := s;
      if unit != PageUnit {
        var ty := UnitType(unit);
        var normal := ClimbToType(t, s, ty);
        if normal.Aborted? {
          return Aborted;
        }
        var landed := AdvanceByType(t, normal.value, count, ty);
        if landed.Aborted? {
          return Aborted;
        }
        k := landed.value;
      }
      start := TextPoint(t.ids[k], 0);
      end := TextPoint(t.ids[k], t.textLens[k]);
      r := Done(SOk);
    }
  }
}
