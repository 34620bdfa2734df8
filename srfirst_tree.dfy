/**
 * The accessible tree of the SRFirst window (Sources/SRFirstMain.cpp): the
 * node columns, the builder that appends named elements under the current
 * depth, the per-node text lengths it keeps, focus movement and button
 * activation.
 */
module SRFirstTree {
  import opened Common
  import opened Columns

  /** 64-bit ids; 0 stands for the root, all-ones for "no element". */
  type Id = u64

  datatype NodeType = Untyped | Text | Document | Button | Pane

  /** The callback a button runs; only its identity is modelled. */
  datatype Action = Action(tag: string)

  /** A snapshot of the node columns, as the read-only queries see them. */
  datatype Nodes = Nodes(
    ids: seq<Id>,
    names: seq<string>,
    types: seq<NodeType>,
    parents: seq<Id>,
    depths: seq<int>,
    textLens: seq<nat>,
    rects: seq<Rect>)
  {
    predicate Aligned()
    {
      |names| == |ids| && |types| == |ids| && |parents| == |ids| &&
      |depths| == |ids| && |textLens| == |ids| && |rects| == |ids|
    }
  }

  /** Sum of the name lengths of the nodes before position j that have a as
    * ancestor-or-self. */
  function NameLenSum(t: Nodes, a: int, j: nat): nat
    requires t.Aligned() && j <= |t.ids|
  {
    if j == 0 then 0
    else NameLenSum(t, a, j - 1) + (if AncOrSelf(t.ids, t.parents, a, j - 1) then |t.names[j - 1]| else 0)
  }

  /** The length of all text within node a: its own name and every
    * descendant's. */
  function SubtreeTextLen(t: Nodes, a: int): nat
    requires t.Aligned()
  {
    NameLenSum(t, a, |t.ids|)
  }

  /** node_text_len holds, for every node, the text length of its subtree. */
  predicate TextLensAggregate(t: Nodes)
    requires t.Aligned()
  {
    forall a :: 0 <= a < |t.ids| ==> t.textLens[a] == SubtreeTextLen(t, a)
  }

  /** The invariant every query relies on. */
  predicate Wf(t: Nodes)
  {
    t.Aligned() && Shaped(t.ids, t.parents, t.depths, Max64)
  }

  /** exists_id: a valid id that names a node. */
  predicate ExistsId(t: Nodes, id: int)
  {
    ValidId(id, Max64) && id in t.ids
  }

  lemma {:induction false} NameLenSumZeroBelow(t: Nodes, a: int, j: nat)
    requires t.Aligned() && j <= |t.ids| && j <= a
    ensures NameLenSum(t, a, j) == 0
  {
    if j > 0 {
      NameLenSumZeroBelow(t, a, j - 1);
      if AncOrSelf(t.ids, t.parents, a, j - 1) {
        AncOrSelfBelow(t.ids, t.parents, a, j - 1);
      }
    }
  }

  lemma {:induction false} NameLenSumAppend(t: Nodes, u: Nodes, a: int, j: nat)
    requires t.Aligned() && u.Aligned() && |u.ids| == |t.ids| + 1
    requires u.ids == t.ids + [u.ids[|t.ids|]] && u.parents == t.parents + [u.parents[|t.ids|]]
    requires u.names[..|t.ids|] == t.names
    requires j <= |t.ids|
    ensures NameLenSum(u, a, j) == NameLenSum(t, a, j)
  {
    if j > 0 {
      NameLenSumAppend(t, u, a, j - 1);
      AncOrSelfAppend(t.ids, t.parents, u.ids[|t.ids|], u.parents[|t.ids|], a, j - 1);
      assert u.names[j - 1] == t.names[j - 1];
    }
  }

  /** Appending a node and adding its name length to itself and to every
    * ancestor keeps every node's text length equal to its subtree's. */
  lemma AppendKeepsTextLens(t: Nodes, u: Nodes)
    requires t.Aligned() && TextLensAggregate(t)
    requires u.Aligned() && |u.ids| == |t.ids| + 1
    requires u.ids == t.ids + [u.ids[|t.ids|]] && u.parents == t.parents + [u.parents[|t.ids|]]
    requires u.names == t.names + [u.names[|t.ids|]]
    requires u.textLens[|t.ids|] == |u.names[|t.ids|]|
    requires forall a :: 0 <= a < |t.ids| ==>
               u.textLens[a] == t.textLens[a] +
                 (if AncOrSelf(u.ids, u.parents, a, |t.ids|) then |u.names[|t.ids|]| else 0)
    ensures TextLensAggregate(u)
  {
    var n := |t.ids|;
    assert u.names[..n] == t.names;
    forall a | 0 <= a < |u.ids|
      ensures u.textLens[a] == SubtreeTextLen(u, a)
    {
      NameLenSumAppend(t, u, a, n);
      if a == n {
        NameLenSumZeroBelow(u, a, n);
      }
    }
  }

  lemma {:induction false} NameLenSumSameLinks(t: Nodes, u: Nodes, a: int, j: nat)
    requires t.Aligned() && u.Aligned() && u.ids == t.ids && u.parents == t.parents && u.names == t.names
    requires j <= |t.ids|
    ensures NameLenSum(u, a, j) == NameLenSum(t, a, j)
  {
    if j > 0 {
      NameLenSumSameLinks(t, u, a, j - 1);
    }
  }

  /** The text lengths depend on ids, parents and names only. */
  lemma AggregateIgnoresOtherColumns(t: Nodes, u: Nodes)
    requires t.Aligned() && u.Aligned() && u.ids == t.ids && u.parents == t.parents && u.names == t.names
    requires u.textLens == t.textLens && TextLensAggregate(t)
    ensures TextLensAggregate(u)
  {
    forall a | 0 <= a < |u.ids|
      ensures u.textLens[a] == SubtreeTextLen(u, a)
    {
      NameLenSumSameLinks(t, u, a, |t.ids|);
    }
  }

  /** A node's text length counts at least its own name. */
  lemma {:induction false} OwnNameWithinSubtree(t: Nodes, a: int, j: nat)
    requires t.Aligned() && 0 <= a < j <= |t.ids|
    ensures NameLenSum(t, a, j) >= |t.names[a]|
  {
    if j - 1 > a {
      OwnNameWithinSubtree(t, a, j - 1);
    }
  }

  lemma TextLenCoversName(t: Nodes, a: int)
    requires t.Aligned() && TextLensAggregate(t) && 0 <= a < |t.ids|
    ensures t.textLens[a] >= |t.names[a]|
  {
    OwnNameWithinSubtree(t, a, |t.ids|);
  }

  /** The parent-chain walk of ui_named_element: add len to the text length
    * of every ancestor of node n, leaving every other node's as it was. */
  method AddToAncestors(ids: seq<Id>, parents: seq<Id>, depths: seq<int>, lens0: seq<nat>, n: nat, len: nat)
    returns (lens: seq<nat>)
    requires Shaped(ids, parents, depths, Max64) && n < |ids| && |lens0| == |ids|
    ensures |lens| == |lens0|
    ensures forall a :: 0 <= a < |ids| ==>
              lens[a] == lens0[a] + (if a < n && AncOrSelf(ids, parents, a, n) then len else 0)
  {
    lens := lens0;
    var p := parents[n];
    ghost var cur := n;
    while p != 0
      invariant 0 <= cur <= n && AncOrSelf(ids, parents, cur, n)
      invariant p == parents[cur]
      invariant |lens| == |lens0|
      invariant forall a :: 0 <= a < |ids| ==>
                  lens[a] == lens0[a] +
                    (if cur <= a < n && AncOrSelf(ids, parents, a, n) then len else 0)
      decreases cur
    {
      ParentFacts(ids, parents, depths, Max64, cur);
      var found, parentIndex := GetIndex(ids, p, Max64);
      assert found && parentIndex == ParentPos(ids, parents, cur);
      AncOrSelfThrough(ids, parents, parentIndex, cur, n);
      forall a | parentIndex < a < cur
        ensures !AncOrSelf(ids, parents, a, n)
      {
        AncOrSelfThrough(ids, parents, a, cur, n);
        if AncOrSelf(ids, parents, a, parentIndex) {
          AncOrSelfBelow(ids, parents, a, parentIndex);
        }
      }
      lens := lens[parentIndex := lens[parentIndex] + len];
      p := parents[parentIndex];
      cur := parentIndex;
    }
    forall a | 0 <= a < cur
      ensures !AncOrSelf(ids, parents, a, n)
    {
      AncOrSelfThrough(ids, parents, a, cur, n);
    }
  }

  /** The appends of ui_named_element and its text-length walk: one new
    * row (box {0, 0, 0, 0}, text length that of its name), and the name's
    * length added to every ancestor. */
  method AppendNode(t: Nodes, id: Id, name: string, ty: NodeType, parentId: Id, depth: int) returns (u: Nodes)
    requires Wf(t) && TextLensAggregate(t)
    requires ValidId(id, Max64) && id !in t.ids && ParentForDepth(t.ids, t.depths, depth) == Some(parentId)
    ensures Wf(u) && TextLensAggregate(u)
    ensures u.ids == t.ids + [id] && u.names == t.names + [name] && u.types == t.types + [ty] &&
            u.parents == t.parents + [parentId] && u.depths == t.depths + [depth] &&
            u.rects == t.rects + [Rect(0, 0, 0, 0)]
    ensures |u.textLens| == |u.ids| && u.textLens[|t.ids|] == |name|
    ensures forall a :: 0 <= a < |t.ids| ==>
              u.textLens[a] == t.textLens[a] + (if AncOrSelf(u.ids, u.parents, a, |t.ids|) then |name| else 0)
  {
    ShapedAppend(t.ids, t.parents, t.depths, Max64, id, depth);
    var ids := t.ids + [id];
    var parents := t.parents + [parentId];
    var depths := t.depths + [depth];
    var lens := AddToAncestors(ids, parents, depths, t.textLens + [|name|], |t.ids|, |name|);
    u := Nodes(ids, t.names + [name], t.types + [ty], parents, depths, lens, t.rects + [Rect(0, 0, 0, 0)]);
    AppendKeepsTextLens(t, u);
  }

  /** The window's tree: one column per node property plus the button
    * actions, the focused id and the depth new elements are added at. */
  class UiTree {
    var nodeIds: seq<Id>
    var nodeNames: seq<string>
    var nodeTypes: seq<NodeType>
    var nodeParents: seq<Id>
    var nodeDepths: seq<int>
    var nodeTextLens: seq<nat>
    var nodeRects: seq<Rect>
    var actions: map<Id, Action>
    var focusedId: Id
    var depthForAdding: int
    /** wyhash64(hash(name), parent id), left uninterpreted. */
    const makeId: (string, Id) -> Id

    function Snapshot(): Nodes
      reads this
    {
      Nodes(nodeIds, nodeNames, nodeTypes, nodeParents, nodeDepths, nodeTextLens, nodeRects)
    }

    /** Every registered action belongs to a node: actions are only ever
      * registered for the button just added. */
    ghost predicate Valid()
      reads this
    {
      Wf(Snapshot()) && TextLensAggregate(Snapshot()) &&
      forall k :: k in actions ==> k in nodeIds
    }

    /** The focused id is the root marker or names a node. */
    predicate FocusValid()
      reads this
    {
      focusedId == 0 || focusedId in nodeIds
    }

    constructor (makeId: (string, Id) -> Id)
      ensures Valid() && FocusValid()
      ensures nodeIds == [] && actions == map[] && focusedId == 0 && depthForAdding == 0
      ensures this.makeId == makeId
    {
      nodeIds, nodeNames, nodeTypes, nodeParents := [], [], [], [];
      nodeDepths, nodeTextLens, nodeRects := [], [], [];
      actions := map[];
      focusedId := 0;
      depthForAdding := 0;
      this.makeId := makeId;
    }

    /** ui_named_element aborts for a node named name: no node sits one
      * level above the adding depth, or the id it would get is invalid or
      * already names a node. */
    predicate NamedAborts(name: string)
      reads this`nodeIds, this`nodeDepths, this`depthForAdding
      requires |nodeDepths| == |nodeIds|
    {
      var p := ParentForDepth(nodeIds, nodeDepths, depthForAdding);
      p.None? || !ValidId(makeId(name, p.value as Id), Max64) || makeId(name, p.value as Id) in nodeIds
    }

    /** The node columns grew by the row ui_named_element appends for node
      * id: its name, type, the parent the depth scan picked, the adding
      * depth, the empty box, its name's length as its text length, and that
      * length added to the text length of each of its ancestors. */
    twostate predicate Appended(id: Id, name: string, ty: NodeType)
      reads this`nodeIds, this`nodeNames, this`nodeTypes, this`nodeParents, this`nodeDepths,
            this`nodeTextLens, this`nodeRects, this`depthForAdding
    {
      var n := |old(nodeIds)|;
      old(|nodeDepths| == |nodeIds| && |nodeParents| == |nodeIds| && |nodeTextLens| == |nodeIds|) &&
      old(ParentForDepth(nodeIds, nodeDepths, depthForAdding)).Some? &&
      id == makeId(name, old(ParentForDepth(nodeIds, nodeDepths, depthForAdding)).value as Id) &&
      nodeIds == old(nodeIds) + [id] &&
      nodeNames == old(nodeNames) + [name] &&
      nodeTypes == old(nodeTypes) + [ty] &&
      nodeParents == old(nodeParents) + [old(ParentForDepth(nodeIds, nodeDepths, depthForAdding)).value as Id] &&
      nodeDepths == old(nodeDepths) + [old(depthForAdding)] &&
      nodeRects == old(nodeRects) + [Rect(0, 0, 0, 0)] &&
      |nodeTextLens| == n + 1 && nodeTextLens[n] == |name| &&
      forall a :: 0 <= a < n ==>
        nodeTextLens[a] == old(nodeTextLens[a]) + (if AncOrSelf(nodeIds, nodeParents, a, n) then |name| else 0)
    }

    /** The parent search of ui_named_element: the root at depth 0, else
      * the last node one level up. */
    method SearchParent() returns (found: bool, parentId: Id)
      requires |nodeDepths| == |nodeIds|
      ensures found <==> ParentForDepth(nodeIds, nodeDepths, depthForAdding).Some?
      ensures found ==> parentId == ParentForDepth(nodeIds, nodeDepths, depthForAdding).value
    {
      parentId := 0;
      if depthForAdding != 0 {
        var parentPos := LastIndexOf(nodeDepths, depthForAdding - 1);
        if parentPos < 0 {
          return false, 0;
        }
        parentId := nodeIds[parentPos];
      }
      found := true;
    }

    /** ui_named_element: append a node under the most recent node one level
      * up, with id makeId(name, parent), then add the name's length to the
      * node and to each of its ancestors. */
    method NamedElement(name: string, ty: NodeType) returns (aborted: bool, id: Id)
      requires Valid()
      modifies this`nodeIds, this`nodeNames, this`nodeTypes, this`nodeParents, this`nodeDepths,
               this`nodeTextLens, this`nodeRects
      ensures Valid()
      ensures aborted <==> old(NamedAborts(name))
      ensures aborted ==> Snapshot() == old(Snapshot())
      ensures !aborted ==> Appended(id, name, ty)
    {
      var found: bool, parentId: Id;
      found, parentId := SearchParent();
      if !found {
        aborted, id := true, 0;
        return;
      }
      id := makeId(name, parentId);
      if !ValidId(id, Max64) || id in nodeIds {
        aborted := true;
        return;
      }
      var u := AppendNode(Snapshot(), id, name, ty, parentId, depthForAdding);
      nodeIds, nodeNames, nodeTypes, nodeParents := u.ids, u.names, u.types, u.parents;
      nodeDepths, nodeTextLens, nodeRects := u.depths, u.textLens, u.rects;
      aborted := false;
    }

    /** ui_document, ui_text_paragraph, ui_pane: a named element of that type. */
    method Document(text: string) returns (aborted: bool, id: Id)
      requires Valid()
      modifies this`nodeIds, this`nodeNames, this`nodeTypes, this`nodeParents, this`nodeDepths,
               this`nodeTextLens, this`nodeRects
      ensures Valid()
      ensures aborted <==> old(NamedAborts(text))
      ensures aborted ==> Snapshot() == old(Snapshot())
      ensures !aborted ==> Appended(id, text, NodeType.Document)
    {
      aborted, id := NamedElement(text, NodeType.Document);
    }

    method TextParagraph(text: string) returns (aborted: bool, id: Id)
      requires Valid()
      modifies this`nodeIds, this`nodeNames, this`nodeTypes, this`nodeParents, this`nodeDepths,
               this`nodeTextLens, this`nodeRects
      ensures Valid()
      ensures aborted <==> old(NamedAborts(text))
      ensures aborted ==> Snapshot() == old(Snapshot())
      ensures !aborted ==> Appended(id, text, NodeType.Text)
    {
      aborted, id := NamedElement(text, NodeType.Text);
    }

    method PaneElement(text: string) returns (aborted: bool, id: Id)
      requires Valid()
      modifies this`nodeIds, this`nodeNames, this`nodeTypes, this`nodeParents, this`nodeDepths,
               this`nodeTextLens, this`nodeRects
      ensures Valid()
      ensures aborted <==> old(NamedAborts(text))
      ensures aborted ==> Snapshot() == old(Snapshot())
      ensures !aborted ==> Appended(id, text, NodeType.Pane)
    {
      aborted, id := NamedElement(text, NodeType.Pane);
    }

    /** ui_button: a Button element whose action is registered under its id;
      * finding an action already registered under the id aborts (the
      * insert_or_assign reports an assignment rather than an insertion),
      * which Valid rules out once the id is new to the tree. */
    method ButtonElement(text: string, action: Action) returns (aborted: bool, id: Id)
      requires Valid()
      modifies this`nodeIds, this`nodeNames, this`nodeTypes, this`nodeParents, this`nodeDepths,
               this`nodeTextLens, this`nodeRects, this`actions
      ensures Valid()
      ensures aborted <==> old(NamedAborts(text)) || id in old(actions)
      ensures aborted <==> old(NamedAborts(text))
      ensures old(NamedAborts(text)) ==> Snapshot() == old(Snapshot())
      ensures !old(NamedAborts(text)) ==> Appended(id, text, NodeType.Button)
      ensures actions == if aborted then old(actions) else old(actions)[id := action]
    {
      aborted, id := NamedElement(text, NodeType.Button);
      if aborted {
        return;
      }
      if id in actions {
        aborted := true;
        return;
      }
      actions := actions[id := action];
    }

    /** ui_set_rect: store the rectangle of an existing node. */
    method SetRect(id: Id, rect: Rect) returns (aborted: bool)
      requires Valid()
      modifies this`nodeRects
      ensures Valid()
      ensures aborted <==> !ExistsId(old(Snapshot()), id)
      ensures !aborted ==> nodeRects == old(nodeRects)[FirstIndex(nodeIds, id) := rect]
      ensures aborted ==> nodeRects == old(nodeRects)
    {
      var found, i := GetIndex(nodeIds, id, Max64);
      if !found {
        return true;
      }
      ghost var before := Snapshot();
      nodeRects := nodeRects[i := rect];
      AggregateIgnoresOtherColumns(before, Snapshot());
      return false;
    }

    /** ui_set_focus_to: move the focus; nothing changes (and no event would
      * be raised) when the id is already focused. */
    method SetFocusTo(id: Id) returns (changed: bool)
      modifies this`focusedId
      ensures focusedId == id
      ensures changed <==> id != old(focusedId)
    {
      if id == focusedId {
        return false;
      }
      focusedId := id;
      return true;
    }

    /** ui_focus_next: focus the node after the focused one, staying on the
      * last node; aborts when the focused id names no node (also when
      * nothing is focused). */
    method FocusNext() returns (aborted: bool)
      requires Valid()
      modifies this`focusedId
      ensures aborted <==> !ExistsId(Snapshot(), old(focusedId))
      ensures aborted ==> focusedId == old(focusedId)
      ensures !aborted ==>
                var i := FirstIndex(nodeIds, old(focusedId));
                focusedId == (if i + 1 < |nodeIds| then nodeIds[i + 1] else old(focusedId))
      ensures !aborted ==> FocusValid()
    {
      var found, index := GetIndex(nodeIds, focusedId, Max64);
      if !found {
        return true;
      }
      aborted := false;
      if index >= |nodeIds| - 1 {
        return;
      }
      index := index + 1;
      var _ := SetFocusTo(nodeIds[index]);
    }

    /** ui_focus_prev: focus the node before the focused one, staying on the
      * first node. */
    method FocusPrev() returns (aborted: bool)
      requires Valid()
      modifies this`focusedId
      ensures aborted <==> !ExistsId(Snapshot(), old(focusedId))
      ensures aborted ==> focusedId == old(focusedId)
      ensures !aborted ==>
                var i := FirstIndex(nodeIds, old(focusedId));
                focusedId == (if i > 0 then nodeIds[i - 1] else old(focusedId))
      ensures !aborted ==> FocusValid()
    {
      var found, index := GetIndex(nodeIds, focusedId, Max64);
      if !found {
        return true;
      }
      aborted := false;
      if index <= 0 {
        return;
      }
      index := index - 1;
      var _ := SetFocusTo(nodeIds[index]);
    }

    /** ui_activate(id): run the action registered under id, if any; the
      * action's own effects are not modelled. */
    method Activate(id: Id) returns (ran: bool)
      ensures ran <==> id in actions
    {
      ran := id in actions;
    }

    /** ui_activate(): activate the focused element, if there is one. */
    method ActivateFocused() returns (ran: bool)
      ensures ran <==> focusedId != 0 && focusedId in actions
    {
      ran := false;
      if focusedId != 0 {
        ran := Activate(focusedId);
      }
    }
  }
}
