/**
 * Navigation in the immediate-mode variant (Sources/TodoAppMain.cpp): the
 * four std::find-based navigators, the element provider's Navigate and the
 * root provider's Navigate.
 *
 * Unlike the SRFirst scans these do not stop at the end of the node's
 * subtree, and the three that search backwards (previous sibling, last
 * child, the root's last child) turn the reverse iterator they find into
 * the position after it: they answer with the node that follows the match.
 */
module TodoAppNav {
  import opened Common
  import opened Columns
  import opened TodoAppTree

  /** ui_next_sibling: the first node anywhere after the given one at the
    * same depth, or Id(-1). */
  function NextSiblingOf(ids: seq<Id>, depths: seq<int>, id: int): (r: Outcome<Id>)
    requires |depths| == |ids|
    ensures r.Aborted? <==> !(ValidId(id, Max32) && id in ids)
    ensures r.Done? ==>
              var i := FirstIndex(ids, id);
              (r.value == NoId && forall j :: i < j < |ids| ==> depths[j] != depths[i]) ||
              (exists j :: i < j < |ids| && depths[j] == depths[i] && r.value == ids[j] &&
                           forall m :: i < m < j ==> depths[m] != depths[i])
  {
    if !(ValidId(id, Max32) && id in ids) then Aborted
    else
      var i := FirstIndex(ids, id);
      if i + 1 == |ids| then Done(NoId)
      else
        var j := FirstWithDepth(depths, i + 1, |ids|, depths[i]);
        if j == |ids| then Done(NoId) else Done(ids[j])
  }

  /** ui_first_child: the first node anywhere after the given one that is
    * one level deeper, or Id(-1). */
  function FirstChildOf(ids: seq<Id>, depths: seq<int>, id: int): (r: Outcome<Id>)
    requires |depths| == |ids|
    ensures r.Aborted? <==> !(ValidId(id, Max32) && id in ids)
    ensures r.Done? ==>
              var i := FirstIndex(ids, id);
              (r.value == NoId && forall j :: i < j < |ids| ==> depths[j] != depths[i] + 1) ||
              (exists j :: i < j < |ids| && depths[j] == depths[i] + 1 && r.value == ids[j] &&
                           forall m :: i < m < j ==> depths[m] != depths[i] + 1)
  {
    if !(ValidId(id, Max32) && id in ids) then Aborted
    else
      var i := FirstIndex(ids, id);
      if i + 1 == |ids| then Done(NoId)
      else
        var j := FirstWithDepth(depths, i + 1, |ids|, depths[i] + 1);
        if j == |ids| then Done(NoId) else Done(ids[j])
  }

  /** ui_prev_sibling: the search starts two places back, at index - 2, and
    * for the last node k there with the same depth answers the node at
    * k + 1; Id(-1) when there is none. */
  function PrevSiblingOf(ids: seq<Id>, depths: seq<int>, id: int): (r: Outcome<Id>)
    requires |depths| == |ids|
    ensures r.Aborted? <==> !(ValidId(id, Max32) && id in ids)
    ensures r.Done? ==>
              var i := FirstIndex(ids, id);
              (r.value == NoId && forall k :: 0 <= k < i - 1 ==> depths[k] != depths[i]) ||
              (exists k :: 0 <= k < i - 1 && depths[k] == depths[i] && r.value == ids[k + 1] &&
                           forall m :: k < m < i - 1 ==> depths[m] != depths[i])
  {
    if !(ValidId(id, Max32) && id in ids) then Aborted
    else
      var i := FirstIndex(ids, id);
      if i == 0 then Done(NoId)
      else
        var k := LastWithDepth(depths, 0, i - 1, depths[i]);
        if k < 0 then Done(NoId) else Done(ids[k + 1])
  }

  /** Position of the first node after i at i's own depth (or |depths|):
    * where ui_last_child stops looking. */
  function SameDepthAfter(depths: seq<int>, i: nat): (r: nat)
    requires i < |depths|
    ensures i < r <= |depths|
    ensures forall m :: i < m < r ==> depths[m] != depths[i]
    ensures r < |depths| ==> depths[r] == depths[i]
  {
    FirstWithDepth(depths, i + 1, |depths|, depths[i])
  }

  /** ui_last_child: between the node and the next node at its depth, find
    * the last node one level deeper and answer the node after it; Id(-1)
    * when there is none. When that last match is the last node of all,
    * the answer is read past the end of the ids. */
  function LastChildOf(ids: seq<Id>, depths: seq<int>, id: int): (r: Outcome<Id>)
    requires |depths| == |ids|
    ensures r.Aborted? <==>
              !(ValidId(id, Max32) && id in ids) ||
              (var i := FirstIndex(ids, id);
               i + 1 < |ids| && depths[|ids| - 1] == depths[i] + 1 &&
               forall m :: i < m < |ids| ==> depths[m] != depths[i])
    ensures r.Done? ==>
              var i := FirstIndex(ids, id);
              var l := SameDepthAfter(depths, i);
              (r.value == NoId && forall m :: i < m < l ==> depths[m] != depths[i] + 1) ||
              (exists k :: i < k < l && k + 1 < |ids| && depths[k] == depths[i] + 1 &&
                           r.value == ids[k + 1] &&
                           forall m :: k < m < l ==> depths[m] != depths[i] + 1)
  {
    if !(ValidId(id, Max32) && id in ids) then Aborted
    else
      var i := FirstIndex(ids, id);
      if i + 1 == |ids| then Done(NoId)
      else
        var l := SameDepthAfter(depths, i);
        var k := LastWithDepth(depths, i + 1, l, depths[i] + 1);
        if k < i + 1 then Done(NoId)
        else if k + 1 == |ids| then Aborted
        else Done(ids[k + 1])
  }

  /** What a found id becomes: nothing when it is the asking element, the
    * root for 0, an element for a valid id, nothing for Id(-1). */
  function Answer(self: int, found: Id): (r: Target)
    ensures r.Element? ==> r.id == found && found != self && ValidId(found, Max32)
    ensures r == RootElement <==> found == 0 && self != 0
  {
    if found == self then NoElement
    else if found == 0 then RootElement
    else if ValidId(found, Max32) then Element(found)
    else NoElement
  }

  /** AnyElementProvider::Navigate: look the element up (aborting when it
    * is not a node), take its parent or ask the navigator for the
    * direction, and hand back what was found. */
  function Navigate(ids: seq<Id>, parents: seq<Id>, depths: seq<int>, self: int, dir: Direction)
    : (r: Outcome<Target>)
    requires |parents| == |ids| && |depths| == |ids|
    ensures r.Aborted? <==>
              !(ValidId(self, Max32) && self in ids) ||
              (dir == LastChild && LastChildOf(ids, depths, self).Aborted?)
    ensures r.Done? && r.value.Element? ==> r.value.id != self && ValidId(r.value.id, Max32)
    ensures r.Done? && dir == Parent ==>
              (r.value == RootElement <==> parents[FirstIndex(ids, self)] == 0)
  {
    if !(ValidId(self, Max32) && self in ids) then Aborted
    else
      var found := match dir
        case Parent => Done(parents[FirstIndex(ids, self)])
        case NextSibling => NextSiblingOf(ids, depths, self)
        case PreviousSibling => PrevSiblingOf(ids, depths, self)
        case FirstChild => FirstChildOf(ids, depths, self)
        case LastChild => LastChildOf(ids, depths, self);
      if found.Aborted? then Aborted else Done(Answer(self, found.value))
  }

  /** In a built tree every element Navigate hands back is a node: the
    * parent links and the navigators only ever name ids of the tree. */
  lemma NavigateStaysInTree(ids: seq<Id>, parents: seq<Id>, depths: seq<int>, self: int, dir: Direction)
    requires Shaped(ids, parents, depths, Max32)
    requires Navigate(ids, parents, depths, self, dir).Done?
    ensures var r := Navigate(ids, parents, depths, self, dir).value;
            r.Element? ==> r.id in ids
  {
    var i := FirstIndex(ids, self);
    if dir == Parent && parents[i] != 0 {
      ParentFacts(ids, parents, depths, Max32, i);
      assert ids[ParentPos(ids, parents, i)] == parents[i];
    }
  }

  /** Where the node has a child, ui_first_child finds that first child:
    * the node right after it, whose parent is the node. */
  lemma FirstChildWhenPresent(ids: seq<Id>, parents: seq<Id>, depths: seq<int>, i: nat)
    requires Shaped(ids, parents, depths, Max32)
    requires i + 1 < |ids| && depths[i + 1] == depths[i] + 1
    ensures FirstChildOf(ids, depths, ids[i]) == Done(ids[i + 1])
    ensures parents[i + 1] == ids[i]
  {
    FirstIndexOfUnique(ids, i);
    assert depths[i] >= 0 by {
      assert NodeShaped(ids, parents, depths, i);
    }
    assert NodeShaped(ids, parents, depths, i + 1);
    ParentFacts(ids, parents, depths, Max32, i + 1);
    assert depths[i] == depths[i + 1] - 1;
    assert ParentPos(ids, parents, i + 1) == i;
  }

  /** Where the node has a next sibling (the run of deeper nodes after it
    * ends at a node of its depth), ui_next_sibling finds it, and the two
    * share their parent. */
  lemma NextSiblingWhenPresent(ids: seq<Id>, parents: seq<Id>, depths: seq<int>, i: nat, j: nat)
    requires Shaped(ids, parents, depths, Max32)
    requires i < j < |ids| && depths[j] == depths[i]
    requires forall m :: i < m < j ==> depths[m] > depths[i]
    ensures NextSiblingOf(ids, depths, ids[i]) == Done(ids[j])
    ensures parents[j] == parents[i]
  {
    FirstIndexOfUnique(ids, i);
    assert NodeShaped(ids, parents, depths, i) && NodeShaped(ids, parents, depths, j);
    if parents[i] != 0 {
      ParentFacts(ids, parents, depths, Max32, i);
      ParentFacts(ids, parents, depths, Max32, j);
      var pi, pj := ParentPos(ids, parents, i), ParentPos(ids, parents, j);
      assert depths[pi] == depths[i] - 1 && depths[pj] == depths[i] - 1;
      assert pj < i;
    }
  }

  /** ui_prev_sibling as written: in A, B (A's child), C (both A and C at
    * the top), the previous sibling of C comes out as B, not A. */
  lemma PrevSiblingAnswersFollower()
    ensures PrevSiblingOf([1, 2, 3], [0, 1, 0], 3) == Done(2)
  {
    var ids: seq<Id> := [1, 2, 3];
    assert FirstIndex(ids, 3) == 2;
  }

  /** ui_next_sibling as written: in A, B (A's child), C, D (C's child), the
    * next sibling of B comes out as D, a child of another parent. */
  lemma NextSiblingCrossesParents()
    ensures NextSiblingOf([1, 2, 3, 4], [0, 1, 0, 1], 2) == Done(4)
  {
    var ids: seq<Id> := [1, 2, 3, 4];
    assert FirstIndex(ids, 2) == 1;
  }

  /** ui_last_child as written: in A, B, C (B and C children of A), D, the
    * last child of A comes out as D, the node after C. */
  lemma LastChildAnswersFollower()
    ensures LastChildOf([1, 2, 3, 4], [0, 1, 1, 0], 1) == Done(4)
  {
    var ids: seq<Id> := [1, 2, 3, 4];
    assert FirstIndex(ids, 1) == 0;
  }

  /** ui_last_child as written: when the last child is the last node of the
    * tree, the answer is read past the end of the ids. */
  lemma LastChildAtEndAborts(ids: seq<Id>, parents: seq<Id>, depths: seq<int>, i: nat)
    requires Shaped(ids, parents, depths, Max32)
    requires i + 1 < |ids| && parents[|ids| - 1] == ids[i]
    ensures LastChildOf(ids, depths, ids[i]).Aborted?
  {
    var n := |ids|;
    FirstIndexOfUnique(ids, i);
    assert NodeShaped(ids, parents, depths, n - 1);
    ParentFacts(ids, parents, depths, Max32, n - 1);
    assert ParentPos(ids, parents, n - 1) == i;
    assert depths[n - 1] == depths[i] + 1;
  }

  /** RootProvider::Navigate: the first child is the first top-level node;
    * the last child search finds the last top-level node and answers the
    * node after it (reading past the end when that node is the last one);
    * the other directions answer nothing. */
  function RootNavigate(ids: seq<Id>, depths: seq<int>, dir: Direction): (r: Outcome<Target>)
    requires |depths| == |ids|
    ensures r.Aborted? <==> dir == LastChild && |ids| > 0 && depths[|ids| - 1] == 0
    ensures r.Done? && r.value.Element? ==> ValidId(r.value.id, Max32) && r.value.id in ids
    ensures dir != FirstChild && dir != LastChild ==> r == Done(NoElement)
    ensures dir == FirstChild && r.Done? && r.value.Element? ==>
              var k := FirstWithDepth(depths, 0, |ids|, 0);
              k < |ids| && r.value.id == ids[k]
  {
    match dir
    case FirstChild =>
      var k := FirstWithDepth(depths, 0, |ids|, 0);
      var found := if k == |ids| then NoId else ids[k];
      Done(if ValidId(found, Max32) then Element(found) else NoElement)
    case LastChild =>
      var k := LastWithDepth(depths, 0, |ids|, 0);
      if k < 0 then Done(NoElement)
      else if k + 1 == |ids| then Aborted
      else Done(if ValidId(ids[k + 1], Max32) then Element(ids[k + 1]) else NoElement)
    case _ => Done(NoElement)
  }

  /** As written, the root's last child is never a top-level node: it is
    * the node after the last top-level one. */
  lemma RootLastChildNotTopLevel(ids: seq<Id>, depths: seq<int>)
    requires |depths| == |ids|
    requires RootNavigate(ids, depths, LastChild).Done?
    requires RootNavigate(ids, depths, LastChild).value.Element?
    ensures exists j :: 0 <= j < |ids| && ids[j] == RootNavigate(ids, depths, LastChild).value.id &&
                        depths[j] != 0
  {
    var k := LastWithDepth(depths, 0, |ids|, 0);
    assert ids[k + 1] == RootNavigate(ids, depths, LastChild).value.id && depths[k + 1] != 0;
  }
}
