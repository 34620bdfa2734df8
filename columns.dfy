/**
 * The column-oriented ("APL-style") node store both tree programs use: one
 * sequence per property, all indexed by the node's position in build order.
 * This module holds what the two programs share: the std::find lookups,
 * ui_get_index, the shape every build produces (each node's parent is the
 * most recent earlier node one level up), ancestry along parent links, and
 * the deepest-node hit test.
 */
module Columns {
  import opened Common

  // ---------------------------------------------------------------------
  // std::find over a column

  /** std::find from the front: the first position of x, or |s| when x is absent. */
  function FirstIndex(s: seq<int>, x: int): (r: nat)
    ensures r <= |s|
    ensures r < |s| ==> s[r] == x
    ensures forall k :: 0 <= k < r ==> s[k] != x
    ensures r == |s| <==> x !in s
  {
    if |s| == 0 then 0
    else if s[0] == x then 0
    else 1 + FirstIndex(s[1..], x)
  }

  /** std::find over reverse iterators: the last position of x, or -1. */
  function LastIndexOf(s: seq<int>, x: int): (r: int)
    ensures -1 <= r < |s|
    ensures r >= 0 ==> s[r] == x
    ensures forall k :: r < k < |s| ==> s[k] != x
  {
    if |s| == 0 then -1
    else if s[|s| - 1] == x then |s| - 1
    else LastIndexOf(s[..|s| - 1], x)
  }

  /** std::find over [lo, hi) of the depth column: the first position with
    * depth d, or hi. */
  function FirstWithDepth(depths: seq<int>, lo: nat, hi: nat, d: int): (r: nat)
    requires lo <= hi <= |depths|
    ensures lo <= r <= hi
    ensures forall m :: lo <= m < r ==> depths[m] != d
    ensures r < hi ==> depths[r] == d
    decreases hi - lo
  {
    if lo == hi then hi
    else if depths[lo] == d then lo
    else FirstWithDepth(depths, lo + 1, hi, d)
  }

  /** std::find over reverse iterators of [lo, hi): the last position with
    * depth d, or lo - 1. */
  function LastWithDepth(depths: seq<int>, lo: nat, hi: nat, d: int): (r: int)
    requires lo <= hi <= |depths|
    ensures lo - 1 <= r < hi
    ensures forall m :: r < m < hi ==> depths[m] != d
    ensures r >= lo ==> depths[r] == d
    decreases hi - lo
  {
    if lo == hi then lo - 1
    else if depths[hi - 1] == d then hi - 1
    else LastWithDepth(depths, lo, hi - 1, d)
  }

  predicate Unique(s: seq<int>)
  {
    forall i, j :: 0 <= i < j < |s| ==> s[i] != s[j]
  }

  lemma FirstIndexOfUnique(s: seq<int>, i: int)
    requires Unique(s) && 0 <= i < |s|
    ensures FirstIndex(s, s[i]) == i
  {
  }

  lemma FirstIndexAppend(s: seq<int>, x: int, y: int)
    ensures FirstIndex(s + [x], y) ==
      if y in s then FirstIndex(s, y) else if x == y then |s| else |s| + 1
  {
    var t := s + [x];
    var r := FirstIndex(t, y);
    if y in s {
      var f := FirstIndex(s, y);
      assert t[f] == y;
      assert forall k :: 0 <= k < f ==> t[k] != y;
    } else if x == y {
      assert t[|s|] == y;
      assert forall k :: 0 <= k < |s| ==> t[k] != y;
    } else {
      assert y !in t;
    }
  }

  /** ui_get_index as a value: the position of a valid id that is present,
    * or None where the program aborts. */
  function IndexOf(ids: seq<int>, id: int, max: int): (r: Option<nat>)
    ensures r.Some? <==> ValidId(id, max) && id in ids
    ensures r.Some? ==> r.value < |ids| && ids[r.value] == id
  {
    if ValidId(id, max) && id in ids then Some(FirstIndex(ids, id)) else None
  }

  /** ui_get_index: VERIFY the id is valid, scan the ids, VERIFY it was found.
    * The two-entry "fingers" cache in front of the scan is not modelled. */
  method GetIndex(ids: seq<int>, id: int, max: int) returns (found: bool, index: nat)
    ensures found <==> ValidId(id, max) && id in ids
    ensures found ==> index < |ids| && ids[index] == id && index == FirstIndex(ids, id)
  {
    index := 0;
    if !ValidId(id, max) {
      found := false;
      return;
    }
    while index < |ids|
      invariant index <= |ids|
      invariant forall k :: 0 <= k < index ==> ids[k] != id
    {
      if ids[index] == id {
        break;
      }
      index := index + 1;
    }
    found := index < |ids|;
  }

  // ---------------------------------------------------------------------
  // The shape of a built tree

  predicate SameLength(ids: seq<int>, parents: seq<int>, depths: seq<int>)
  {
    |parents| == |ids| && |depths| == |ids|
  }

  /** Node i's place in the tree: its depth is non-negative, it has the root
    * (parent id 0) exactly when its depth is 0, and otherwise its parent is
    * the most recent earlier node one level up. */
  predicate NodeShaped(ids: seq<int>, parents: seq<int>, depths: seq<int>, i: int)
    requires SameLength(ids, parents, depths) && 0 <= i < |ids|
  {
    depths[i] >= 0 &&
    (parents[i] == 0 <==> depths[i] == 0) &&
    (parents[i] != 0 ==>
       FirstIndex(ids, parents[i]) < i &&
       LastIndexOf(depths[..i], depths[i] - 1) == FirstIndex(ids, parents[i]))
  }

  /** Every tree the builder produces: valid, distinct ids and shaped nodes. */
  predicate Shaped(ids: seq<int>, parents: seq<int>, depths: seq<int>, max: int)
  {
    SameLength(ids, parents, depths) &&
    (forall i :: 0 <= i < |ids| ==> ValidId(ids[i], max)) &&
    Unique(ids) &&
    (forall i :: 0 <= i < |ids| ==> NodeShaped(ids, parents, depths, i))
  }

  /** Position of node i's parent (meaningful when its parent id is not 0). */
  function ParentPos(ids: seq<int>, parents: seq<int>, i: int): nat
    requires 0 <= i < |parents|
  {
    FirstIndex(ids, parents[i])
  }

  lemma ParentFacts(ids: seq<int>, parents: seq<int>, depths: seq<int>, max: int, i: int)
    requires Shaped(ids, parents, depths, max) && 0 <= i < |ids| && parents[i] != 0
    ensures ParentPos(ids, parents, i) < i
    ensures ids[ParentPos(ids, parents, i)] == parents[i]
    ensures depths[ParentPos(ids, parents, i)] == depths[i] - 1
    ensures forall k :: ParentPos(ids, parents, i) < k < i ==> depths[k] != depths[i] - 1
  {
    assert NodeShaped(ids, parents, depths, i);
    var p := ParentPos(ids, parents, i);
    var pre := depths[..i];
    assert LastIndexOf(pre, depths[i] - 1) == p;
    assert forall k :: p < k < i ==> depths[k] == pre[k];
  }

  /** The parent a new node at depth d gets: the root at depth 0, otherwise
    * the most recent node one level up (None: there is none, and the
    * program aborts). */
  function ParentForDepth(ids: seq<int>, depths: seq<int>, d: int): (r: Option<int>)
    requires |depths| == |ids|
    ensures d == 0 ==> r == Some(0)
    ensures d != 0 ==> (r.Some? <==> d - 1 in depths)
    ensures d != 0 && r.Some? ==>
              exists p :: 0 <= p < |ids| && depths[p] == d - 1 && r.value == ids[p] &&
                          forall q :: p < q < |depths| ==> depths[q] != d - 1
  {
    if d == 0 then Some(0)
    else
      var p := LastIndexOf(depths, d - 1);
      if p < 0 then None else Some(ids[p])
  }

  /** Appending a node under the parent ParentForDepth picks keeps the shape. */
  lemma ShapedAppend(ids: seq<int>, parents: seq<int>, depths: seq<int>, max: int,
                     x: int, d: int)
    requires Shaped(ids, parents, depths, max)
    requires ValidId(x, max) && x !in ids
    requires ParentForDepth(ids, depths, d).Some?
    ensures d >= 0
    ensures Shaped(ids + [x], parents + [ParentForDepth(ids, depths, d).value], depths + [d], max)
  {
    var p := ParentForDepth(ids, depths, d).value;
    var ids', parents', depths' := ids + [x], parents + [p], depths + [d];
    NewNodeShaped(ids, parents, depths, max, x, d);
    forall i | 0 <= i < |ids'|
      ensures NodeShaped(ids', parents', depths', i)
    {
      if i < |ids| {
        OldNodeShaped(ids, parents, depths, max, x, p, d, i);
      }
    }
  }

  /** The appended node sits under the parent ParentForDepth picks. */
  lemma NewNodeShaped(ids: seq<int>, parents: seq<int>, depths: seq<int>, max: int, x: int, d: int)
    requires Shaped(ids, parents, depths, max)
    requires x !in ids && ParentForDepth(ids, depths, d).Some?
    ensures d >= 0
    ensures var p := ParentForDepth(ids, depths, d).value;
            NodeShaped(ids + [x], parents + [p], depths + [d], |ids|)
  {
    var p := ParentForDepth(ids, depths, d).value;
    var n := |ids|;
    if d != 0 {
      var pi := LastIndexOf(depths, d - 1);
      assert depths[pi] == d - 1 && depths[pi] >= 0 by {
        assert NodeShaped(ids, parents, depths, pi);
      }
      FirstIndexAppend(ids, x, p);
      FirstIndexOfUnique(ids, pi);
      assert (depths + [d])[..n] == depths;
    }
  }

  /** A node already there keeps its place when another is appended. */
  lemma OldNodeShaped(ids: seq<int>, parents: seq<int>, depths: seq<int>, max: int, x: int, p: int, d: int,
                      i: int)
    requires Shaped(ids, parents, depths, max) && x !in ids && 0 <= i < |ids|
    ensures NodeShaped(ids + [x], parents + [p], depths + [d], i)
  {
    assert NodeShaped(ids, parents, depths, i);
    assert (depths + [d])[..i] == depths[..i];
    if parents[i] != 0 {
      FirstIndexAppend(ids, x, parents[i]);
    }
  }

  /** The depth column of a well-nested build: it starts at the top level
    * and goes at most one level deeper from one node to the next (the
    * builder itself accepts any adding depth that finds a parent). */
  ghost predicate StepDepth(depths: seq<int>)
  {
    (|depths| > 0 ==> depths[0] == 0) &&
    forall j, k :: 0 <= j < k < |depths| && k == j + 1 ==> depths[k] <= depths[j] + 1
  }

  /** Appending at the top level, or at most one level below the last node,
    * keeps the depths well nested. */
  lemma StepDepthAppend(depths: seq<int>, d: int)
    requires StepDepth(depths)
    requires |depths| == 0 ==> d == 0
    requires |depths| > 0 ==> d <= depths[|depths| - 1] + 1
    ensures StepDepth(depths + [d])
  {
    var s := depths + [d];
    forall j, k | 0 <= j < k < |s| && k == j + 1
      ensures s[k] <= s[j] + 1
    {
      if k < |depths| {
        assert s[k] == depths[k] && s[j] == depths[j];
      }
    }
  }

  /** With well-nested depths, every depth between those of positions i and
    * m (i before m) is met somewhere from i to m. */
  lemma {:induction false} DepthReached(depths: seq<int>, i: nat, m: nat, d: int)
    requires StepDepth(depths) && i <= m < |depths| && depths[i] <= d <= depths[m]
    ensures exists k :: i <= k <= m && depths[k] == d
    decreases m - i
  {
    if depths[m] != d {
      assert depths[m] <= depths[m - 1] + 1;
      DepthReached(depths, i, m - 1, d);
    }
  }

  // ---------------------------------------------------------------------
  // Ancestry along parent links

  /** a is j itself or one of its ancestors, following parent links that
    * point to earlier positions. */
  predicate AncOrSelf(ids: seq<int>, parents: seq<int>, a: int, j: int)
    requires |parents| == |ids| && 0 <= j < |ids|
    decreases j
  {
    a == j ||
    (parents[j] != 0 && FirstIndex(ids, parents[j]) < j &&
     AncOrSelf(ids, parents, a, FirstIndex(ids, parents[j])))
  }

  lemma {:induction false} AncOrSelfBelow(ids: seq<int>, parents: seq<int>, a: int, j: int)
    requires |parents| == |ids| && 0 <= j < |ids|
    requires AncOrSelf(ids, parents, a, j)
    ensures a <= j
    decreases j
  {
    if a != j {
      AncOrSelfBelow(ids, parents, a, FirstIndex(ids, parents[j]));
    }
  }

  /** If c lies on j's chain, the ancestors of j at or above c's position are
    * exactly the ancestors of c. */
  lemma {:induction false} AncOrSelfThrough(ids: seq<int>, parents: seq<int>, a: int, c: int, j: int)
    requires |parents| == |ids| && 0 <= c <= j < |ids| && a <= c
    requires AncOrSelf(ids, parents, c, j)
    ensures AncOrSelf(ids, parents, a, j) <==> AncOrSelf(ids, parents, a, c)
    decreases j
  {
    if c != j {
      var p := FirstIndex(ids, parents[j]);
      AncOrSelfBelow(ids, parents, c, p);
      AncOrSelfThrough(ids, parents, a, c, p);
    }
  }

  /** Appending a node changes no ancestry among the nodes already there. */
  lemma {:induction false} AncOrSelfAppend(ids: seq<int>, parents: seq<int>, x: int, p: int, a: int, j: int)
    requires |parents| == |ids| && 0 <= j < |ids|
    ensures AncOrSelf(ids + [x], parents + [p], a, j) == AncOrSelf(ids, parents, a, j)
    decreases j
  {
    var ids', parents' := ids + [x], parents + [p];
    assert parents'[j] == parents[j];
    if parents[j] != 0 {
      FirstIndexAppend(ids, x, parents[j]);
      var q := FirstIndex(ids, parents[j]);
      if q < j {
        AncOrSelfAppend(ids, parents, x, p, a, q);
      }
    }
  }

  // ---------------------------------------------------------------------
  // Hit test

  /** Node k is a candidate for the hit test: its box holds the point and its
    * depth is not below the starting depth 0. */
  predicate Hit(depths: seq<int>, rects: seq<Rect>, pt: Point, k: int)
    requires |rects| == |depths| && 0 <= k < |rects|
  {
    0 <= depths[k] && Contains(rects[k], pt)
  }

  /** j is the answer the scan settles on: deepest among the candidates, and
    * the last in build order among the candidates that deep. */
  predicate DeepestLast(depths: seq<int>, rects: seq<Rect>, pt: Point, j: int)
    requires |rects| == |depths| && 0 <= j < |rects|
  {
    Hit(depths, rects, pt, j) &&
    (forall k :: 0 <= k < |rects| && Hit(depths, rects, pt, k) ==> depths[k] <= depths[j]) &&
    (forall k :: j < k < |rects| && Hit(depths, rects, pt, k) ==> depths[k] < depths[j])
  }

  /** The deepest-node-containing scan: walk every node, keep the last one
    * whose box holds the point and whose depth is at least the best so far.
    * Returns `none` when no node holds the point. */
  method DeepestContaining<T>(ids: seq<T>, depths: seq<int>, rects: seq<Rect>, pt: Point, none: T)
    returns (r: T)
    requires |ids| == |rects| && |depths| == |rects|
    ensures (forall k :: 0 <= k < |rects| ==> !Hit(depths, rects, pt, k)) ==> r == none
    ensures (exists k :: 0 <= k < |rects| && Hit(depths, rects, pt, k)) ==>
              exists j :: 0 <= j < |rects| && r == ids[j] && DeepestLast(depths, rects, pt, j)
  {
    var depth := 0;
    r := none;
    ghost var best := -1;
    var i := 0;
    while i < |rects|
      invariant 0 <= i <= |rects|
      invariant best == -1 ==> r == none && depth == 0
      invariant best == -1 ==> forall k :: 0 <= k < i ==> !Hit(depths, rects, pt, k)
      invariant best != -1 ==> 0 <= best < i && r == ids[best] && depth == depths[best]
      invariant best != -1 ==> Hit(depths, rects, pt, best)
      invariant best != -1 ==> forall k :: 0 <= k < i && Hit(depths, rects, pt, k) ==> depths[k] <= depth
      invariant best != -1 ==> forall k :: best < k < i && Hit(depths, rects, pt, k) ==> depths[k] < depth
    {
      var d := depths[i];
      if d >= depth && Contains(rects[i], pt) {
        depth := d;
        r := ids[i];
        best := i;
      }
      i := i + 1;
    }
    if best != -1 {
      assert DeepestLast(depths, rects, pt, best);
    }
  }
}
