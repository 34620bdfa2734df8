/**
 * The earliest, flat variant (Project1/SRFirstMain.cpp): a list of text
 * paragraphs with 64-bit ids, a focused id moved one paragraph at a time,
 * and element navigation clamped to the ends of the list.
 */
module Project1 {
  import opened Common
  import opened Columns

  type Id = u64

  /** UiaAppendRuntimeId: the first entry of every element's runtime id. */
  const AppendRuntimeId := 3

  /** int32_t(x) for a value below 2^32: the upper half wraps to negatives. */
  function Int32(x: nat): (r: int)
    requires x < Two32
    ensures -0x8000_0000 <= r < 0x8000_0000
    ensures r % Two32 == x
  {
    if x < 0x8000_0000 then x else x - Two32
  }

  /** GetRuntimeId: UiaAppendRuntimeId followed by the low 32 bits of the id,
    * as a signed 32-bit value. */
  function RuntimeId(id: Id): (r: seq<int>)
    ensures |r| == 2 && r[0] == AppendRuntimeId
    ensures -0x8000_0000 <= r[1] < 0x8000_0000 && r[1] % Two32 == id % Two32
  {
    LowBitsFitU32(id);
    [AppendRuntimeId, Int32(Bits(id, 0, 32))]
  }

  /** Two ids get the same runtime id exactly when their low 32 bits agree. */
  lemma RuntimeIdSameIffLowBits(a: Id, b: Id)
    ensures RuntimeId(a) == RuntimeId(b) <==> a % Two32 == b % Two32
  {
    var ra, rb := RuntimeId(a), RuntimeId(b);
    if a % Two32 == b % Two32 {
      LowBitsFitU32(a);
      LowBitsFitU32(b);
      assert ra[1] == rb[1];
      assert ra == rb;
    }
  }

  /** So distinct valid ids can share a runtime id. */
  lemma RuntimeIdCollides()
    ensures ValidId(1, Max64) && ValidId(Two32 + 1, Max64) && RuntimeId(1) == RuntimeId(Two32 + 1)
  {
    RuntimeIdSameIffLowBits(1, Two32 + 1);
  }

  /** ui_focus_next / ui_focus_prev as a value: find the focused id (abort
    * when it is not in the list), then step one paragraph, staying put at
    * the end. */
  function FocusStep(ids: seq<Id>, focus: Id, forward: bool): (r: Outcome<Id>)
    ensures r.Aborted? <==> focus !in ids
    ensures r.Done? ==> r.value in ids
    ensures r.Done? && forward ==>
              (r.value == focus <==> FirstIndex(ids, focus) == |ids| - 1 || ids[FirstIndex(ids, focus) + 1] == focus)
  {
    if focus !in ids then Aborted
    else
      var i := FirstIndex(ids, focus);
      if forward then Done(if i < |ids| - 1 then ids[i + 1] else ids[i])
      else Done(if i > 0 then ids[i - 1] else ids[i])
  }

  /** With distinct ids, a step forward that moved is undone by a step back,
    * and the other way round. */
  lemma FocusStepRoundTrip(ids: seq<Id>, focus: Id, forward: bool)
    requires Unique(ids) && focus in ids
    requires FocusStep(ids, focus, forward).value != focus
    ensures FocusStep(ids, FocusStep(ids, focus, forward).value, !forward) == Done(focus)
  {
    var i := FirstIndex(ids, focus);
    var j := if forward then i + 1 else i - 1;
    assert FocusStep(ids, focus, forward).value == ids[j];
    FirstIndexOfUnique(ids, j);
  }

  /** The list does not reject repeated ids, and then the round trip fails:
    * in b, a, b a step forward from a lands on the second b, and a step back
    * from b starts at the first b and stays there. */
  lemma FocusStepDuplicates()
    ensures FocusStep([2, 1, 2], 1, true) == Done(2)
    ensures FocusStep([2, 1, 2], 2, false) == Done(2)
  {
    var ids: seq<Id> := [2, 1, 2];
    assert FirstIndex(ids, 1) == 1;
    assert FirstIndex(ids, 2) == 0;
  }

  /** AnyElementProvider::Navigate: find the element (abort when it is not
    * in the list), answer the root for Parent, the clamped neighbour for
    * the sibling directions, and nothing for the child directions or when
    * the clamp lands on the element itself. */
  function Navigate(ids: seq<Id>, self: Id, dir: Direction): (r: Outcome<Target>)
    ensures r.Aborted? <==> self !in ids
    ensures r.Done? && dir == Parent ==> r.value == RootElement
    ensures r.Done? && (dir == FirstChild || dir == LastChild) ==> r.value == NoElement
    ensures r.Done? && r.value.Element? ==> r.value.id in ids && r.value.id != self
    ensures r.Done? && dir == NextSibling ==>
              var i := FirstIndex(ids, self);
              r.value.Element? <==> i + 1 < |ids| && ids[i + 1] != self && ids[i + 1] != 0 && ValidId(ids[i + 1], Max64)
  {
    if self !in ids then Aborted
    else
      var i := FirstIndex(ids, self);
      var found: Id := match dir
        case Parent => 0
        case NextSibling => if i < |ids| - 1 then ids[i + 1] else ids[i]
        case PreviousSibling => if i > 0 then ids[i - 1] else ids[i]
        case _ => Max64;
      if found == 0 then Done(RootElement)
      else if ValidId(found, Max64) && found != self then Done(Element(found))
      else Done(NoElement)
  }

  /** With distinct valid ids, the next sibling's previous sibling is the
    * element itself, and the other way round. */
  lemma SiblingRoundTrip(ids: seq<Id>, i: nat)
    requires Unique(ids) && (forall k :: 0 <= k < |ids| ==> ValidId(ids[k], Max64))
    requires i + 1 < |ids|
    ensures Navigate(ids, ids[i], NextSibling) == Done(Element(ids[i + 1]))
    ensures Navigate(ids, ids[i + 1], PreviousSibling) == Done(Element(ids[i]))
  {
    FirstIndexOfUnique(ids, i);
    FirstIndexOfUnique(ids, i + 1);
  }

  /** RootProvider::Navigate: the first and the last paragraph for the child
    * directions (when there are any), nothing otherwise. */
  function RootNavigate(ids: seq<Id>, dir: Direction): (r: Target)
    ensures r.Element? ==> ValidId(r.id, Max64) && |ids| > 0 &&
                           ((dir == FirstChild && r.id == ids[0]) || (dir == LastChild && r.id == ids[|ids| - 1]))
    ensures (dir == FirstChild || dir == LastChild) && |ids| > 0 && (forall k :: 0 <= k < |ids| ==> ValidId(ids[k], Max64)) ==>
              r.Element?
    ensures r != RootElement
  {
    var found: int :=
      if dir == FirstChild && |ids| > 0 then ids[0]
      else if dir == LastChild && |ids| > 0 then ids[|ids| - 1]
      else -1;
    if ValidId(found, Max64) then Element(found) else NoElement
  }

  /** The root's first child has no previous sibling and its last child no
    * next sibling. */
  lemma RootChildrenAreEnds(ids: seq<Id>)
    requires Unique(ids) && |ids| > 0 && (forall k :: 0 <= k < |ids| ==> ValidId(ids[k], Max64))
    ensures Navigate(ids, RootNavigate(ids, FirstChild).id, PreviousSibling) == Done(NoElement)
    ensures Navigate(ids, RootNavigate(ids, LastChild).id, NextSibling) == Done(NoElement)
  {
    FirstIndexOfUnique(ids, 0);
    FirstIndexOfUnique(ids, |ids| - 1);
  }

  /** The paragraph list of the window and the focused id. */
  class FlatTree {
    var nodeIds: seq<Id>
    var nodeNames: seq<string>
    var focusedId: Id
    /** hash(text): the id of a paragraph, left uninterpreted. */
    const hash: string -> Id

    ghost predicate Valid()
      reads this
    {
      |nodeNames| == |nodeIds| && forall k :: 0 <= k < |nodeIds| ==> ValidId(nodeIds[k], Max64)
    }

    constructor (hash: string -> Id)
      ensures Valid() && nodeIds == [] && focusedId == 0 && this.hash == hash
    {
      nodeIds, nodeNames := [], [];
      focusedId := 0;
      this.hash := hash;
    }

    /** ui_text_paragraph: append a paragraph whose id is the hash of its
      * text; an invalid id aborts, a repeated one does not. */
    method TextParagraph(text: string) returns (aborted: bool, id: Id)
      requires Valid()
      modifies this`nodeIds, this`nodeNames
      ensures Valid()
      ensures id == hash(text)
      ensures aborted <==> !ValidId(id, Max64)
      ensures aborted ==> nodeIds == old(nodeIds) && nodeNames == old(nodeNames)
      ensures !aborted ==> nodeIds == old(nodeIds) + [id] && nodeNames == old(nodeNames) + [text]
    {
      id := hash(text);
      if !ValidId(id, Max64) {
        return true, id;
      }
      nodeIds := nodeIds + [id];
      nodeNames := nodeNames + [text];
      aborted := false;
    }

    /** ui_describe: the three paragraphs, then focus on the second one if
      * nothing was focused. */
    method Describe() returns (aborted: bool)
      requires Valid()
      modifies this`nodeIds, this`nodeNames, this`focusedId
      ensures Valid()
      ensures aborted <==>
                !ValidId(hash(FirstText), Max64) || !ValidId(hash(SecondText), Max64) ||
                !ValidId(hash(ThirdText), Max64)
      ensures !aborted ==>
                nodeIds == old(nodeIds) + [hash(FirstText), hash(SecondText), hash(ThirdText)] &&
                nodeNames == old(nodeNames) + [FirstText, SecondText, ThirdText] &&
                focusedId == (if old(focusedId) == 0 then hash(SecondText) else old(focusedId))
      ensures !aborted && old(focusedId) == 0 ==> focusedId in nodeIds
    {
      var first, second, third;
      aborted, first := TextParagraph(FirstText);
      if aborted {
        return;
      }
      aborted, second := TextParagraph(SecondText);
      if aborted {
        return;
      }
      aborted, third := TextParagraph(ThirdText);
      if aborted {
        return;
      }
      if focusedId == 0 && |nodeIds| > 0 {
        focusedId := second;
      }
    }

    /** ui_focus_next: find the focused id by a scan (abort when absent),
      * move to the next paragraph, staying on the last. */
    method FocusNext() returns (aborted: bool)
      modifies this`focusedId
      ensures aborted <==> old(focusedId) !in nodeIds
      ensures !aborted ==> focusedId == FocusStep(nodeIds, old(focusedId), true).value
      ensures aborted ==> focusedId == old(focusedId)
    {
      var index := FindFocused();
      if index == |nodeIds| {
        return true;
      }
      if index < |nodeIds| - 1 {
        index := index + 1;
      }
      focusedId := nodeIds[index];
      aborted := false;
    }

    /** ui_focus_prev: find the focused id by a scan (abort when absent),
      * move to the previous paragraph, staying on the first. */
    method FocusPrev() returns (aborted: bool)
      modifies this`focusedId
      ensures aborted <==> old(focusedId) !in nodeIds
      ensures !aborted ==> focusedId == FocusStep(nodeIds, old(focusedId), false).value
      ensures aborted ==> focusedId == old(focusedId)
    {
      var index := FindFocused();
      if index == |nodeIds| {
        return true;
      }
      if index > 0 {
        index := index - 1;
      }
      focusedId := nodeIds[index];
      aborted := false;
    }

    /** The scan both focus moves start with: the position of the focused
      * id, or the list's length when it is absent. */
    method FindFocused() returns (index: nat)
      ensures index == FirstIndex(nodeIds, focusedId)
    {
      index := 0;
      while index < |nodeIds|
        invariant index <= |nodeIds|
        invariant forall k :: 0 <= k < index ==> nodeIds[k] != focusedId
      {
        if nodeIds[index] == focusedId {
          break;
        }
        index := index + 1;
      }
      FirstIndexIsFirstMiss(nodeIds, focusedId, index);
    }

    /** AnyElementProvider::SetFocus: focus the element, unconditionally. */
    method SetFocus(id: Id)
      modifies this`focusedId
      ensures focusedId == id
    {
      focusedId := id;
    }
  }

  const FirstText := "This is the first paragraph."
  const SecondText := "Hello, Dreamer of dreams."
  const ThirdText := "Yet another paragraph"

  lemma FirstIndexIsFirstMiss(s: seq<int>, x: int, i: nat)
    requires i <= |s| && (forall k :: 0 <= k < i ==> s[k] != x) && (i < |s| ==> s[i] == x)
    ensures FirstIndex(s, x) == i
  {
  }
}
