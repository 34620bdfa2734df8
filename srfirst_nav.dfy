/**
 * The element providers of the SRFirst window (Sources/SRFirstMain.cpp):
 * navigation between elements, the patterns and properties an element
 * reports, and the root provider's queries (its two children, the focused
 * element, the element under a point).
 *
 * Navigation relies on the pre-order layout: the nodes after node i that
 * are deeper than i form a run that ends at the first node no deeper than
 * i. Sibling and child scans stay inside that run.
 */
module SRFirstNav {
  import opened Common
  import opened Columns
  import opened SRFirstTree


  // ---------------------------------------------------------------------
  // Scans over the depth column

  /** First position at or after k whose depth is at most d, or |depths|. */
  function ScanForward(depths: seq<int>, k: nat, d: int): (r: nat)
    requires k <= |depths|
    ensures k <= r <= |depths|
    ensures forall m :: k <= m < r ==> depths[m] > d
    ensures r < |depths| ==> depths[r] <= d
    decreases |depths| - k
  {
    if k == |depths| || depths[k] <= d then k else ScanForward(depths, k + 1, d)
  }

  /** Last position before k whose depth is at most d, or -1. */
  function ScanBackward(depths: seq<int>, k: nat, d: int): (r: int)
    requires k <= |depths|
    ensures -1 <= r < k
    ensures forall m :: r < m < k ==> depths[m] > d
    ensures r >= 0 ==> depths[r] <= d
  {
    if k == 0 then -1
    else if depths[k - 1] <= d then k - 1
    else ScanBackward(depths, k - 1, d)
  }

  /** End of the run of nodes deeper than node i that follows it. */
  function SubtreeEnd(t: Nodes, i: nat): nat
    requires t.Aligned() && i < |t.ids|
  {
    ScanForward(t.depths, i + 1, t.depths[i])
  }

  function NextSiblingOf(t: Nodes, i: nat): Option<nat>
    requires t.Aligned() && i < |t.ids|
  {
    var e := SubtreeEnd(t, i);
    if e < |t.ids| && t.depths[e] == t.depths[i] then Some(e) else None
  }

  function PrevSiblingOf(t: Nodes, i: nat): Option<nat>
    requires t.Aligned() && i < |t.ids|
  {
    var b := ScanBackward(t.depths, i, t.depths[i]);
    if b >= 0 && t.depths[b] == t.depths[i] then Some(b) else None
  }

  function FirstChildOf(t: Nodes, i: nat): Option<nat>
    requires t.Aligned() && i < |t.ids|
  {
    var e := SubtreeEnd(t, i);
    var k := FirstWithDepth(t.depths, i + 1, e, t.depths[i] + 1);
    if k < e then Some(k) else None
  }

  function LastChildOf(t: Nodes, i: nat): Option<nat>
    requires t.Aligned() && i < |t.ids|
  {
    var e := SubtreeEnd(t, i);
    var k := LastWithDepth(t.depths, i + 1, e, t.depths[i] + 1);
    if k > i then Some(k) else None
  }

  function ElementAt(t: Nodes, k: Option<nat>): Target
    requires t.Aligned() && (k.Some? ==> k.value < |t.ids|)
  {
    if k.Some? then Element(t.ids[k.value]) else NoElement
  }

  /** Where AnyElementProvider::Navigate goes from node i. */
  function NavigateFrom(t: Nodes, i: nat, dir: Direction): Target
    requires t.Aligned() && i < |t.ids|
  {
    match dir
    case Parent => if t.parents[i] == 0 then RootElement else Element(t.parents[i])
    case NextSibling => ElementAt(t, NextSiblingOf(t, i))
    case PreviousSibling => ElementAt(t, PrevSiblingOf(t, i))
    case FirstChild => ElementAt(t, FirstChildOf(t, i))
    case LastChild => ElementAt(t, LastChildOf(t, i))
  }

  // ---------------------------------------------------------------------
  // What the scans find, in terms of parent links

  /** Two nodes of equal depth with only deeper nodes between them have the
    * same parent. */
  lemma SameParentAcrossDeeper(t: Nodes, i: nat, j: nat)
    requires Wf(t) && i < j < |t.ids| && t.depths[i] == t.depths[j]
    requires forall m :: i < m < j ==> t.depths[m] > t.depths[i]
    ensures t.parents[i] == t.parents[j]
  {
    var d := t.depths[i];
    assert NodeShaped(t.ids, t.parents, t.depths, i);
    assert NodeShaped(t.ids, t.parents, t.depths, j);
    if d != 0 {
      ParentFacts(t.ids, t.parents, t.depths, Max64, i);
      ParentFacts(t.ids, t.parents, t.depths, Max64, j);
      var pi := ParentPos(t.ids, t.parents, i);
      var pj := ParentPos(t.ids, t.parents, j);
      // Both parents sit one level up; a node one level up cannot lie
      // between i and j, nor between either parent and its child.
      assert t.depths[pi] == d - 1 && t.depths[pj] == d - 1;
    }
  }

  /** A node one level below i inside i's run is a child of i. */
  lemma RunChildHasParent(t: Nodes, i: nat, k: nat)
    requires Wf(t) && i < k < |t.ids| && t.depths[k] == t.depths[i] + 1
    requires forall m :: i < m < k ==> t.depths[m] > t.depths[i]
    ensures t.parents[k] == t.ids[i]
  {
    assert NodeShaped(t.ids, t.parents, t.depths, i);
    assert NodeShaped(t.ids, t.parents, t.depths, k);
    ParentFacts(t.ids, t.parents, t.depths, Max64, k);
    var p := ParentPos(t.ids, t.parents, k);
    assert t.depths[p] == t.depths[i];
  }

  lemma NextSiblingSharesParent(t: Nodes, i: nat)
    requires Wf(t) && i < |t.ids| && NextSiblingOf(t, i).Some?
    ensures t.parents[NextSiblingOf(t, i).value] == t.parents[i]
  {
    SameParentAcrossDeeper(t, i, NextSiblingOf(t, i).value);
  }

  lemma PrevSiblingSharesParent(t: Nodes, i: nat)
    requires Wf(t) && i < |t.ids| && PrevSiblingOf(t, i).Some?
    ensures t.parents[PrevSiblingOf(t, i).value] == t.parents[i]
  {
    SameParentAcrossDeeper(t, PrevSiblingOf(t, i).value, i);
  }

  /** Next and previous sibling undo each other. */
  lemma SiblingsInverse(t: Nodes, i: nat, j: nat)
    requires t.Aligned() && i < |t.ids| && j < |t.ids|
    ensures NextSiblingOf(t, i) == Some(j) <==> PrevSiblingOf(t, j) == Some(i)
  {
    if NextSiblingOf(t, i) == Some(j) {
      var b := ScanBackward(t.depths, j, t.depths[j]);
      assert t.depths[i] <= t.depths[j];
    }
    if PrevSiblingOf(t, j) == Some(i) {
      var e := SubtreeEnd(t, i);
      assert t.depths[j] <= t.depths[i];
    }
  }

  lemma FirstChildIsChild(t: Nodes, i: nat)
    requires Wf(t) && i < |t.ids| && FirstChildOf(t, i).Some?
    ensures t.parents[FirstChildOf(t, i).value] == t.ids[i]
    ensures t.depths[FirstChildOf(t, i).value] == t.depths[i] + 1
  {
    RunChildHasParent(t, i, FirstChildOf(t, i).value);
  }

  lemma LastChildIsChild(t: Nodes, i: nat)
    requires Wf(t) && i < |t.ids| && LastChildOf(t, i).Some?
    ensures t.parents[LastChildOf(t, i).value] == t.ids[i]
    ensures t.depths[LastChildOf(t, i).value] == t.depths[i] + 1
  {
    RunChildHasParent(t, i, LastChildOf(t, i).value);
  }

  /** A node has a first child exactly when it has a last child, and the
    * first does not come after the last. */
  lemma ChildrenBracket(t: Nodes, i: nat)
    requires t.Aligned() && i < |t.ids|
    ensures FirstChildOf(t, i).Some? <==> LastChildOf(t, i).Some?
    ensures FirstChildOf(t, i).Some? ==> FirstChildOf(t, i).value <= LastChildOf(t, i).value
  {
    var e := SubtreeEnd(t, i);
    var d := t.depths[i] + 1;
    var f := FirstWithDepth(t.depths, i + 1, e, d);
    var l := LastWithDepth(t.depths, i + 1, e, d);
    if f < e {
      assert l >= f;
    }
    if l > i {
      assert f <= l;
    }
  }

  /** Walking from the first child by next-sibling steps stays among i's
    * children: the next sibling of a child is again a child of i. */
  lemma NextSiblingOfChildIsChild(t: Nodes, i: nat, c: nat)
    requires Wf(t) && i < c < |t.ids| && t.parents[c] == t.ids[i]
    requires NextSiblingOf(t, c).Some?
    ensures t.parents[NextSiblingOf(t, c).value] == t.ids[i]
  {
    NextSiblingSharesParent(t, c);
  }

  // ---------------------------------------------------------------------
  // The pre-order layout, when depths are well nested

  /** A node after i with only deeper nodes from i up to it lies in i's run. */
  lemma InRun(t: Nodes, i: nat, m: nat)
    requires t.Aligned() && i < m < |t.ids|
    requires forall q :: i < q <= m ==> t.depths[q] > t.depths[i]
    ensures m < SubtreeEnd(t, i)
  {
  }

  /** With well-nested depths, every node from just after a node's parent
    * up to the node itself is deeper than the parent. */
  lemma ChildInParentRun(t: Nodes, m: nat)
    requires Wf(t) && StepDepth(t.depths) && m < |t.ids| && t.parents[m] != 0
    ensures var p := ParentPos(t.ids, t.parents, m);
            forall q :: p < q <= m ==> t.depths[q] > t.depths[p]
  {
    ParentFacts(t.ids, t.parents, t.depths, Max64, m);
    var p := ParentPos(t.ids, t.parents, m);
    forall q | p < q <= m
      ensures t.depths[q] > t.depths[p]
    {
      if t.depths[q] <= t.depths[p] {
        DepthReached(t.depths, q, m, t.depths[m] - 1);
      }
    }
  }

  /** Pre-order contiguity: with well-nested depths, the nodes after i up to
    * the first node no deeper than i are exactly i's descendants. */
  lemma {:induction false} RunIsSubtree(t: Nodes, i: nat, m: nat)
    requires Wf(t) && StepDepth(t.depths) && i < m < |t.ids|
    ensures m < SubtreeEnd(t, i) <==> AncOrSelf(t.ids, t.parents, i, m)
    decreases m
  {
    assert NodeShaped(t.ids, t.parents, t.depths, m);
    assert NodeShaped(t.ids, t.parents, t.depths, i);
    var e := SubtreeEnd(t, i);
    if m < e {
      ParentFacts(t.ids, t.parents, t.depths, Max64, m);
      var p := ParentPos(t.ids, t.parents, m);
      DepthReached(t.depths, i, m, t.depths[m] - 1);
      assert i <= p;
      if p > i {
        RunIsSubtree(t, i, p);
      }
    }
    if AncOrSelf(t.ids, t.parents, i, m) {
      var p := ParentPos(t.ids, t.parents, m);
      AncOrSelfBelow(t.ids, t.parents, i, p);
      ChildInParentRun(t, m);
      if p > i {
        RunIsSubtree(t, i, p);
        assert forall q :: i < q <= p ==> t.depths[q] > t.depths[i];
      }
      InRun(t, i, m);
    }
  }

  /** The nodes visited from a by repeated next-sibling steps, a first. */
  function SiblingChain(t: Nodes, a: nat): seq<nat>
    requires t.Aligned() && a < |t.ids|
    decreases |t.ids| - a
  {
    match NextSiblingOf(t, a)
    case None => [a]
    case Some(n) => [a] + SiblingChain(t, n)
  }

  /** Inside i's run, next-sibling steps from one node one level below i
    * reach every later node one level below i. */
  lemma {:induction false} SiblingStepsReach(t: Nodes, i: nat, a: nat, c: nat)
    requires t.Aligned() && i < a <= c < |t.ids| && c < SubtreeEnd(t, i)
    requires t.depths[a] == t.depths[i] + 1 && t.depths[c] == t.depths[i] + 1
    ensures c in SiblingChain(t, a)
    decreases c - a
  {
    if a < c {
      var n := SubtreeEnd(t, a);
      assert a < n <= c;
      assert NextSiblingOf(t, a) == Some(n);
      SiblingStepsReach(t, i, n, c);
    }
  }

  /** Navigation round trip: with well-nested depths, every child of node i
    * lies between i's first and last child and is reached from the first
    * child by next-sibling steps. */
  lemma ChildrenReachable(t: Nodes, i: nat, c: nat)
    requires Wf(t) && StepDepth(t.depths) && i < |t.ids| && c < |t.ids| && t.parents[c] == t.ids[i]
    ensures FirstChildOf(t, i).Some? && LastChildOf(t, i).Some?
    ensures FirstChildOf(t, i).value <= c <= LastChildOf(t, i).value
    ensures c in SiblingChain(t, FirstChildOf(t, i).value)
  {
    assert NodeShaped(t.ids, t.parents, t.depths, c);
    ParentFacts(t.ids, t.parents, t.depths, Max64, c);
    FirstIndexOfUnique(t.ids, i);
    ChildInParentRun(t, c);
    InRun(t, i, c);
    var e := SubtreeEnd(t, i);
    var f := FirstWithDepth(t.depths, i + 1, e, t.depths[i] + 1);
    SiblingStepsReach(t, i, f, c);
  }

  /** The tree the builder makes when the adding depth skips a level: node
    * ids 1, 2, 3, 4 at depths 0, 1, 0, 2, node 4 under node 2. */
  function SkippedLevelTree(): Nodes
  {
    Nodes([1, 2, 3, 4], ["", "", "", ""], [Untyped, Untyped, Untyped, Untyped], [0, 1, 0, 2], [0, 1, 0, 2],
          [0, 0, 0, 0], [Rect(0, 0, 0, 0), Rect(0, 0, 0, 0), Rect(0, 0, 0, 0), Rect(0, 0, 0, 0)])
  }

  /** The skipped-level tree is one the builder produces. */
  lemma SkippedLevelTreeWf()
    ensures Wf(SkippedLevelTree())
  {
    var t := SkippedLevelTree();
    assert FirstIndex(t.ids, 1) == 0;
    assert FirstIndex(t.ids, 2) == 1;
    assert t.depths[..1] == [0];
    assert t.depths[..3] == [0, 1, 0];
    assert LastIndexOf(t.depths[..1], 0) == 0;
    assert LastIndexOf(t.depths[..3], 1) == 1;
    assert NodeShaped(t.ids, t.parents, t.depths, 1);
    assert NodeShaped(t.ids, t.parents, t.depths, 3);
  }

  /** Without well-nested depths both layout properties fail: the node at
    * position 3 is a child of the node at position 1, which has no first
    * child, and it lies in the run of the node at position 2 without
    * descending from it. */
  lemma SkippedLevelBreaksLayout()
    ensures var t := SkippedLevelTree();
            Wf(t) && !StepDepth(t.depths) &&
            t.parents[3] == t.ids[1] && FirstChildOf(t, 1).None? &&
            3 < SubtreeEnd(t, 2) && !AncOrSelf(t.ids, t.parents, 2, 3)
  {
    var t := SkippedLevelTree();
    SkippedLevelTreeWf();
    assert t.depths[3] > t.depths[2] + 1;
    assert SubtreeEnd(t, 1) == 2;
    assert SubtreeEnd(t, 2) == 4;
    assert FirstIndex(t.ids, 2) == 1;
    assert !AncOrSelf(t.ids, t.parents, 2, 1);
  }

  // ---------------------------------------------------------------------
  // AnyElementProvider::Navigate

  /** The next-sibling scan: forward over the deeper run, stopping at the
    * first node of equal depth; `index` itself when there is none. */
  method ScanNextSibling(t: Nodes, index: nat) returns (k: nat)
    requires Wf(t) && index < |t.ids|
    ensures k == (if NextSiblingOf(t, index).Some? then NextSiblingOf(t, index).value else index)
    ensures k < |t.ids| && (k == index || t.parents[k] == t.parents[index])
  {
    var n := |t.ids|;
    var thisDepth := t.depths[index];
    k := index;
    var i := index + 1;
    while i < n && t.depths[i] >= thisDepth
      invariant index + 1 <= i <= n
      invariant forall m :: index < m < i ==> t.depths[m] > thisDepth
    {
      if t.depths[i] == thisDepth {
        k := i;
        break;
      }
      i := i + 1;
    }
    if k != index {
      NextSiblingSharesParent(t, index);
    }
  }

  /** The previous-sibling scan: backward over deeper nodes, stopping at
    * the first node of equal depth. */
  method ScanPrevSibling(t: Nodes, index: nat) returns (k: nat)
    requires Wf(t) && index < |t.ids|
    ensures k == (if PrevSiblingOf(t, index).Some? then PrevSiblingOf(t, index).value else index)
    ensures k < |t.ids| && (k == index || t.parents[k] == t.parents[index])
  {
    var thisDepth := t.depths[index];
    k := index;
    var ri := index;
    while ri > 0 && t.depths[ri - 1] >= thisDepth
      invariant 0 <= ri <= index
      invariant forall m :: ri <= m < index ==> t.depths[m] > thisDepth
    {
      if t.depths[ri - 1] == thisDepth {
        k := ri - 1;
        break;
      }
      ri := ri - 1;
    }
    if k != index {
      PrevSiblingSharesParent(t, index);
    }
  }

  /** The first-child scan: forward over the deeper run, stopping at the
    * first node one level down. */
  method ScanFirstChild(t: Nodes, index: nat) returns (k: nat)
    requires Wf(t) && index < |t.ids|
    ensures k == (if FirstChildOf(t, index).Some? then FirstChildOf(t, index).value else index)
    ensures k < |t.ids| && (k == index || t.parents[k] == t.ids[index])
  {
    var n := |t.ids|;
    var thisDepth := t.depths[index];
    k := index;
    var i := index + 1;
    while i < n && t.depths[i] >= thisDepth + 1
      invariant index + 1 <= i <= n
      invariant forall m :: index < m < i ==> t.depths[m] > thisDepth + 1
    {
      if t.depths[i] == thisDepth + 1 {
        k := i;
        RunChildHasParent(t, index, k);
        break;
      }
      i := i + 1;
    }
    ghost var e := SubtreeEnd(t, index);
    assert k == index ==> e == i;
  }

  /** The last-child scan: forward over the whole deeper run, remembering
    * the last node one level down. */
  method ScanLastChild(t: Nodes, index: nat) returns (k: nat)
    requires Wf(t) && index < |t.ids|
    ensures k == (if LastChildOf(t, index).Some? then LastChildOf(t, index).value else index)
    ensures k < |t.ids| && (k == index || t.parents[k] == t.ids[index])
  {
    var n := |t.ids|;
    var thisDepth := t.depths[index];
    k := index;
    var i := index + 1;
    while i < n && t.depths[i] >= thisDepth + 1
      invariant index + 1 <= i <= n
      invariant forall m :: index < m < i ==> t.depths[m] > thisDepth
      invariant k == index || index < k < i
      invariant k != index ==> t.depths[k] == thisDepth + 1
      invariant forall m :: k < m < i && index < m ==> t.depths[m] != thisDepth + 1
    {
      if t.depths[i] == thisDepth + 1 {
        k := i;
      }
      i := i + 1;
    }
    ghost var e := SubtreeEnd(t, index);
    assert e == i;
    if k != index {
      RunChildHasParent(t, index, k);
    }
  }

  /** Navigate from the element `self`: the scans of the source, each run
    * inside the caller's run of deeper nodes; aborts only when `self`
    * names no node. The checks the source makes on what it finds (the
    * sibling shares the parent, the child's parent is `self`) always hold. */
  method Navigate(t: Nodes, self: Id, dir: Direction) returns (r: Outcome<Target>)
    requires Wf(t)
    ensures r.Aborted? <==> !ExistsId(t, self)
    ensures r.Done? ==> r.value == NavigateFrom(t, FirstIndex(t.ids, self), dir)
  {
    var found, index := GetIndex(t.ids, self, Max64);
    if !found {
      return Aborted;
    }
    FirstIndexOfUnique(t.ids, index);
    var elementId: int;
    if dir == Parent {
      var thisParent := t.parents[index];
      if thisParent != 0 {
        ParentFacts(t.ids, t.parents, t.depths, Max64, index);
      }
      elementId := thisParent;
    } else {
      var k: nat;
      match dir {
        case NextSibling => k := ScanNextSibling(t, index);
        case PreviousSibling => k := ScanPrevSibling(t, index);
        case FirstChild => k := ScanFirstChild(t, index);
        case LastChild => k := ScanLastChild(t, index);
      }
      assert t.ids[k] == self <==> k == index;
      elementId := t.ids[k];
    }
    if elementId == 0 {
      r := Done(RootElement);
    } else if ValidId(elementId, Max64) && elementId != self {
      r := Done(Element(elementId));
    } else {
      r := Done(NoElement);
    }
  }

  // ---------------------------------------------------------------------
  // RootProvider

  /** RootProvider::Navigate: the first and the last top-level node; every
    * other direction gives nothing. */
  function RootNavigateSpec(t: Nodes, dir: Direction): Target
    requires t.Aligned()
  {
    var n := |t.ids|;
    match dir
    case FirstChild =>
      var k := FirstWithDepth(t.depths, 0, n, 0);
      if k < n then Element(t.ids[k]) else NoElement
    case LastChild =>
      var k := LastWithDepth(t.depths, 0, n, 0);
      if k >= 0 then Element(t.ids[k]) else NoElement
    case _ => NoElement
  }

  method RootNavigate(t: Nodes, dir: Direction) returns (r: Target)
    requires Wf(t)
    ensures r == RootNavigateSpec(t, dir)
    ensures r.Element? ==> ExistsId(t, r.id) && t.parents[FirstIndex(t.ids, r.id)] == 0
  {
    var n := |t.ids|;
    var elementId: int := Max64;
    match dir {
      case FirstChild =>
        var index := 0;
        while index < n
          invariant 0 <= index <= n
          invariant forall m :: 0 <= m < index ==> t.depths[m] != 0
        {
          if t.depths[index] == 0 {
            assert NodeShaped(t.ids, t.parents, t.depths, index);
            assert t.parents[index] == 0;
            elementId := t.ids[index];
            FirstIndexOfUnique(t.ids, index);
            break;
          }
          index := index + 1;
        }
        assert index == FirstWithDepth(t.depths, 0, n, 0);
      case LastChild =>
        var ri := n;
        while ri > 0
          invariant 0 <= ri <= n
          invariant forall m :: ri <= m < n ==> t.depths[m] != 0
        {
          var index := ri - 1;
          if t.depths[index] == 0 {
            assert NodeShaped(t.ids, t.parents, t.depths, index);
            assert t.parents[index] == 0;
            elementId := t.ids[index];
            FirstIndexOfUnique(t.ids, index);
            break;
          }
          ri := ri - 1;
        }
        assert ri - 1 == LastWithDepth(t.depths, 0, n, 0);
      case _ =>
    }
    r := if ValidId(elementId, Max64) then Element(elementId) else NoElement;
  }

  /** RootProvider::GetFocus: the focused element, or nothing when the focus
    * is on the root; aborts when the focused id names no node. */
  function RootGetFocus(t: Nodes, focusedId: Id): (r: Outcome<Target>)
    ensures r.Aborted? <==> focusedId != 0 && !ExistsId(t, focusedId)
    ensures r.Done? ==> (r.value == NoElement <==> focusedId == 0)
    ensures r.Done? && focusedId != 0 ==> r.value == Element(focusedId)
  {
    if focusedId == 0 then Done(NoElement)
    else if ExistsId(t, focusedId) then Done(Element(focusedId))
    else Aborted
  }

  /** RootProvider::ElementProviderFromPoint: find the deepest node under
    * the point (given in screen coordinates, the window's client origin at
    * `origin`). As written, a hit hands back the FOCUSED element rather than
    * the node that was hit; no hit hands back the root. */
  method ElementFromPoint(t: Nodes, focusedId: Id, screen: Point, origin: Point) returns (r: Outcome<Target>)
    requires Wf(t)
    ensures var pt := Point(screen.x - origin.x, screen.y - origin.y);
            var hit := exists k :: 0 <= k < |t.ids| && Hit(t.depths, t.rects, pt, k);
            (!hit ==> r == Done(RootElement)) &&
            (hit ==> r == if ExistsId(t, focusedId) then Done(Element(focusedId)) else Aborted)
  {
    var pt := Point(screen.x - origin.x, screen.y - origin.y);
    var id := DeepestContaining(t.ids, t.depths, t.rects, pt, 0);
    ghost var hit := exists k :: 0 <= k < |t.ids| && Hit(t.depths, t.rects, pt, k);
    assert hit ==> id != 0;
    if id != 0 {
      r := if ExistsId(t, focusedId) then Done(Element(focusedId)) else Aborted;
    } else {
      r := Done(RootElement);
    }
  }

  /** The deepest-node answer itself: a node holding the point that no
    * deeper candidate beats, and the last in build order at its depth. */
  method HitTest(t: Nodes, pt: Point) returns (id: Id)
    requires Wf(t)
    ensures id == 0 <==> forall k :: 0 <= k < |t.ids| ==> !Hit(t.depths, t.rects, pt, k)
    ensures id != 0 ==> exists j :: 0 <= j < |t.ids| && id == t.ids[j] && DeepestLast(t.depths, t.rects, pt, j)
  {
    id := DeepestContaining(t.ids, t.depths, t.rects, pt, 0);
  }

  // ---------------------------------------------------------------------
  // Patterns and properties

  datatype PatternId = TextPattern | ValuePattern | InvokePattern | OtherPattern
  datatype PatternProvider = TextProvider(id: Id) | ValueProvider(id: Id) | InvokeProvider(id: Id)

  /** Which patterns a type supports: text for documents and paragraphs,
    * value for documents only (the paragraph's value branch is switched
    * off), invoke for buttons. */
  predicate Supports(ty: NodeType, p: PatternId)
  {
    (p == TextPattern && ty in {NodeType.Document, NodeType.Text}) ||
    (p == ValuePattern && ty == NodeType.Document) ||
    (p == InvokePattern && ty == NodeType.Button)
  }

  /** AnyElementProvider::GetPatternProvider. */
  function GetPatternProvider(t: Nodes, self: Id, p: PatternId): (r: Outcome<Option<PatternProvider>>)
    requires Wf(t)
    ensures r.Aborted? <==> !ExistsId(t, self) || t.types[FirstIndex(t.ids, self)] == Untyped
    ensures r.Done? ==> (r.value.Some? <==> Supports(t.types[FirstIndex(t.ids, self)], p))
    ensures r.Done? && r.value.Some? ==> r.value.value.id == self
    ensures r.Done? && r.value.Some? ==>
              (r.value.value.TextProvider? <==> p == TextPattern) &&
              (r.value.value.ValueProvider? <==> p == ValuePattern) &&
              (r.value.value.InvokeProvider? <==> p == InvokePattern)
  {
    if !ExistsId(t, self) then Aborted
    else
      var ty := t.types[FirstIndex(t.ids, self)];
      if ty == Untyped then Aborted
      else
        match ty
        case Document =>
          if p == TextPattern then Done(Some(TextProvider(self)))
          else if p == ValuePattern then Done(Some(ValueProvider(self)))
          else Done(None)
        case Text =>
          if p == TextPattern then Done(Some(TextProvider(self))) else Done(None)
        case Button =>
          if p == InvokePattern then Done(Some(InvokeProvider(self))) else Done(None)
        case _ => Done(None)
  }

  datatype PropertyId =
    | NameProperty | ControlTypeProperty | IsControlElementProperty | IsContentElementProperty
    | IsEnabledProperty | IsKeyboardFocusableProperty | LabeledByProperty
    | NativeWindowHandleProperty | ProviderDescriptionProperty | ClassNameProperty
    | HasKeyboardFocusProperty | OtherProperty

  datatype Variant = Empty | Str(s: string) | I4(n: int) | Bool(b: bool)

  const ButtonControlTypeId := 50000
  const TextControlTypeId := 50020
  const DocumentControlTypeId := 50030
  const PaneControlTypeId := 50033

  /** The UI Automation control type of a typed node. */
  function ControlTypeOf(ty: NodeType): int
    requires ty != Untyped
  {
    match ty
    case Text => TextControlTypeId
    case Document => DocumentControlTypeId
    case Button => ButtonControlTypeId
    case Pane => PaneControlTypeId
  }

  /** Distinct types report distinct control types. */
  lemma ControlTypeInjective(a: NodeType, b: NodeType)
    requires a != Untyped && b != Untyped
    ensures ControlTypeOf(a) == ControlTypeOf(b) <==> a == b
  {
  }

  /** AnyElementProvider::GetPropertyValue. */
  function GetPropertyValue(t: Nodes, focusedId: Id, self: Id, prop: PropertyId): (r: Outcome<Variant>)
    requires Wf(t)
    ensures r.Aborted? <==> !ExistsId(t, self) || t.types[FirstIndex(t.ids, self)] == Untyped
    ensures r.Done? && prop == NameProperty ==> r.value == Str(t.names[FirstIndex(t.ids, self)])
    ensures r.Done? && prop == ControlTypeProperty ==>
              r.value == I4(ControlTypeOf(t.types[FirstIndex(t.ids, self)]))
    ensures r.Done? && prop == HasKeyboardFocusProperty ==> r.value == Bool(focusedId == self)
    ensures r.Done? && prop == LabeledByProperty ==>
              (r.value.Str? <==> t.types[FirstIndex(t.ids, self)] == NodeType.Document)
  {
    if !ExistsId(t, self) then Aborted
    else
      var index := FirstIndex(t.ids, self);
      var ty := t.types[index];
      if ty == Untyped then Aborted
      else
        Done(match prop
          case NameProperty => Str(t.names[index])
          case ControlTypeProperty => I4(ControlTypeOf(ty))
          case IsControlElementProperty => Bool(true)
          case IsContentElementProperty => Bool(true)
          case IsEnabledProperty => Bool(true)
          case IsKeyboardFocusableProperty => Bool(true)
          case LabeledByProperty => if ty == NodeType.Document then Str(t.names[index]) else Empty
          case NativeWindowHandleProperty => I4(0)
          case ProviderDescriptionProperty => Str("UU::RootProvider")
          case ClassNameProperty => Str("UU::RootProvider")
          case HasKeyboardFocusProperty => Bool(focusedId == self)
          case OtherProperty => Empty)
  }

  /** Exactly one provider reports keyboard focus: the root when the focus
    * is 0, otherwise the focused element. */
  lemma FocusReportedOnce(t: Nodes, focusedId: Id, self: Id)
    requires Wf(t) && ExistsId(t, self) && t.types[FirstIndex(t.ids, self)] != Untyped
    ensures (GetPropertyValue(t, focusedId, self, HasKeyboardFocusProperty) == Done(Bool(true)))
              ==> !RootHasKeyboardFocus(focusedId)
  {
  }

  /** RootProvider's HasKeyboardFocus: true exactly when no element has it. */
  predicate RootHasKeyboardFocus(focusedId: Id)
  {
    focusedId == 0
  }
}
