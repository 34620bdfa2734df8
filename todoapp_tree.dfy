/**
 * The immediate-mode variant (Sources/TodoAppMain.cpp). Every frame the
 * application rebuilds the node columns between ui_begin and ui_end; buttons
 * keep an edge-triggered key state from one frame to the next, ui_begin
 * drops the state of buttons that were not built in the previous frame, and
 * ui_end moves the keyboard focus. Ids are 32 bits wide.
 */
module TodoAppTree {
  import opened Common
  import opened Columns

  /** 32-bit ids; 0 stands for the root, all-ones (Id(-1)) for "no node". */
  type Id = u32
  const NoId: Id := Max32

  type Byte = x: int | 0 <= x < 256

  datatype NodeType = NoType | Text | Button | Pane

  /** type_desc: the name a node type is logged under. */
  function TypeDesc(ty: NodeType): (r: string)
    ensures r == "(invalid)" <==> ty == NoType
  {
    match ty
    case NoType => "(invalid)"
    case Button => "Button"
    case Pane => "Pane"
    case Text => "Text"
  }

  lemma TypeDescInjective(a: NodeType, b: NodeType)
    ensures TypeDesc(a) == TypeDesc(b) ==> a == b
  {
  }

  // ---------------------------------------------------------------------
  // Edge-triggered keys

  datatype DigitalButton = DigitalButton(isDown: bool, pressed: bool, released: bool)

  /** The state `{}` a button or key starts from. */
  const Idle := DigitalButton(false, false, false)

  /** ui_update: take the new level of a key and report its edges. */
  function Update(b: DigitalButton, isDown: bool): (r: DigitalButton)
    ensures r.isDown == isDown
    ensures r.pressed || r.released <==> isDown != b.isDown
    ensures r.pressed ==> isDown
    ensures r.released ==> !isDown
  {
    DigitalButton(isDown, isDown && !b.isDown, b.isDown && !isDown)
  }

  /** Holding a level reports its edge once: a second update with the same
    * level reports no edge, whatever the first one reported. */
  lemma UpdateSettles(b: DigitalButton, isDown: bool)
    ensures Update(Update(b, isDown), isDown) == DigitalButton(isDown, false, false)
  {
  }

  /** Clearing the edges (as ui_end does) does not change what the next
    * update reports: only the level is remembered. */
  lemma UpdateIgnoresOldEdges(b: DigitalButton, isDown: bool)
    ensures Update(DigitalButton(b.isDown, false, false), isDown) == Update(b, isDown)
  {
  }

  /** The reset loop at the end of ui_end: every state keeps its level and
    * loses both edges. */
  method ResetTriggers(states: seq<DigitalButton>) returns (r: seq<DigitalButton>)
    ensures |r| == |states|
    ensures forall k :: 0 <= k < |r| ==> r[k] == DigitalButton(states[k].isDown, false, false)
  {
    r := states;
    var k := 0;
    while k < |r|
      invariant 0 <= k <= |r| == |states|
      invariant forall m :: 0 <= m < k ==> r[m] == DigitalButton(states[m].isDown, false, false)
      invariant forall m :: k <= m < |r| ==> r[m] == states[m]
    {
      r := r[k := DigitalButton(r[k].isDown, false, false)];
      k := k + 1;
    }
  }

  /** Virtual-key codes the program reads. */
  const VkTab := 0x09
  const VkReturn := 0x0D
  const VkUp := 0x26
  const VkDown := 0x28

  /** The focus request ui_end reads off the keys, as (next, previous):
    * Down asks for the next element and Up for the previous one; Tab asks
    * for the next one, or for the previous one while Shift is held. */
  function FocusRequest(keys: seq<DigitalButton>, shift: DigitalButton): (r: (bool, bool))
    requires |keys| == 256
    ensures !keys[VkTab].pressed ==> r == (keys[VkDown].pressed, keys[VkUp].pressed)
    ensures keys[VkTab].pressed && !keys[VkDown].pressed && !keys[VkUp].pressed ==>
              r.0 == !shift.isDown && r.1 == shift.isDown
    ensures keys[VkTab].pressed ==> r.0 || r.1
  {
    (keys[VkDown].pressed || (!shift.isDown && keys[VkTab].pressed),
     keys[VkUp].pressed || (shift.isDown && keys[VkTab].pressed))
  }

  // ---------------------------------------------------------------------
  // Keyboard focus

  /** Where ui_end moves the focus for a request (next, prev): from nothing
    * to the first node; otherwise one node forward (a next request wins)
    * or back, staying put at either end. Looking up a focused id that
    * names no node aborts (so does asking to move with nothing focused and
    * no nodes). */
  function NextFocus(ids: seq<Id>, focus: Id, next: bool, prev: bool): (r: Outcome<Id>)
    ensures r.Aborted? <==>
              (next || prev) && !(focus == 0 && |ids| > 0) && !(ValidId(focus, Max32) && focus in ids)
    ensures !next && !prev ==> r == Done(focus)
    ensures r.Done? ==> r.value == focus || r.value in ids
    ensures r.Done? && focus == 0 && (next || prev) ==> r.value == ids[0]
  {
    if focus == 0 && |ids| > 0 && (next || prev) then Done(ids[0])
    else if next || prev then
      if !(ValidId(focus, Max32) && focus in ids) then Aborted
      else
        var i := FirstIndex(ids, focus);
        if next then Done(if i + 1 < |ids| then ids[i + 1] else focus)
        else Done(if i > 0 then ids[i - 1] else focus)
    else Done(focus)
  }

  /** Moving forward and then back returns to the element focused before,
    * whenever the first move went anywhere. */
  lemma NextThenPrevReturns(ids: seq<Id>, focus: Id, g: Id)
    requires Unique(ids) && focus != 0 && (forall k :: 0 <= k < |ids| ==> ValidId(ids[k], Max32))
    requires NextFocus(ids, focus, true, false) == Done(g) && g != focus
    ensures NextFocus(ids, g, false, true) == Done(focus)
  {
    var i := FirstIndex(ids, focus);
    assert g == ids[i + 1];
    FirstIndexOfUnique(ids, i + 1);
  }

  /** Moving back and then forward returns to the element focused before,
    * whenever the first move went anywhere. */
  lemma PrevThenNextReturns(ids: seq<Id>, focus: Id, g: Id)
    requires Unique(ids) && focus != 0 && (forall k :: 0 <= k < |ids| ==> ValidId(ids[k], Max32))
    requires NextFocus(ids, focus, false, true) == Done(g) && g != focus
    ensures NextFocus(ids, g, true, false) == Done(focus)
  {
    var i := FirstIndex(ids, focus);
    assert g == ids[i - 1];
    FirstIndexOfUnique(ids, i - 1);
  }

  // ---------------------------------------------------------------------
  // Dropping the state of buttons that were not built

  /** Ids and states of the buttons, keeping (in order) those whose id is
    * not in `drop`. */
  function Without(ids: seq<Id>, states: seq<DigitalButton>, drop: set<Id>): (r: (seq<Id>, seq<DigitalButton>))
    requires |states| == |ids|
    ensures |r.0| == |r.1| <= |ids|
  {
    if |ids| == 0 then ([], [])
    else
      var rest := Without(ids[1..], states[1..], drop);
      if ids[0] in drop then rest else ([ids[0]] + rest.0, [states[0]] + rest.1)
  }

  /** The ids kept are exactly those not dropped. */
  lemma {:induction false} WithoutMembers(ids: seq<Id>, states: seq<DigitalButton>, drop: set<Id>)
    requires |states| == |ids|
    ensures forall x :: x in Without(ids, states, drop).0 <==> x in ids && x !in drop
  {
    if |ids| > 0 {
      WithoutMembers(ids[1..], states[1..], drop);
      assert forall x :: x in ids <==> x == ids[0] || x in ids[1..];
    }
  }

  lemma {:induction false} WithoutUnique(ids: seq<Id>, states: seq<DigitalButton>, drop: set<Id>)
    requires |states| == |ids| && Unique(ids)
    ensures Unique(Without(ids, states, drop).0)
  {
    if |ids| > 0 {
      WithoutUnique(ids[1..], states[1..], drop);
      WithoutMembers(ids[1..], states[1..], drop);
      assert ids[0] !in ids[1..];
    }
  }

  /** Dropping an id that is not there changes nothing. */
  lemma {:induction false} WithoutAbsent(ids: seq<Id>, states: seq<DigitalButton>, drop: set<Id>, x: Id)
    requires |states| == |ids| && x !in ids
    ensures Without(ids, states, drop + {x}) == Without(ids, states, drop)
  {
    if |ids| > 0 {
      WithoutAbsent(ids[1..], states[1..], drop, x);
    }
  }

  /** Erasing behind the head keeps the head and erases in the tail. */
  lemma EraseBehindHead<T>(s: seq<T>, k: nat)
    requires 0 < k < |s|
    ensures var e := s[..k] + s[k + 1..];
            |e| == |s| - 1 && e[0] == s[0] && e[1..] == s[1..][..k - 1] + s[1..][k..]
  {
    var e := s[..k] + s[k + 1..];
    assert e[1..] == s[1..][..k - 1] + s[1..][k..];
  }

  /** Erasing the entry at position k is dropping its id. */
  lemma {:induction false} WithoutErase(ids: seq<Id>, states: seq<DigitalButton>, drop: set<Id>, k: nat)
    requires |states| == |ids| && Unique(ids) && k < |ids|
    ensures Without(ids[..k] + ids[k + 1..], states[..k] + states[k + 1..], drop) ==
            Without(ids, states, drop + {ids[k]})
  {
    var x := ids[k];
    if k == 0 {
      assert ids[..0] + ids[1..] == ids[1..];
      assert states[..0] + states[1..] == states[1..];
      assert x !in ids[1..];
      WithoutAbsent(ids[1..], states[1..], drop, x);
    } else {
      var ids', states' := ids[..k] + ids[k + 1..], states[..k] + states[k + 1..];
      var tail, tailStates := ids[1..], states[1..];
      var rest := Without(tail, tailStates, drop + {x});
      EraseBehindHead(ids, k);
      EraseBehindHead(states, k);
      assert Without(ids'[1..], states'[1..], drop) == rest by {
        assert Unique(tail);
        WithoutErase(tail, tailStates, drop, k - 1);
      }
      WithoutSameHead(ids', states', ids, states, drop, x);
    }
  }

  /** Two lists with the same head, that head not x, whose tails agree once
    * x is dropped from the second, agree once x is dropped from it. */
  lemma WithoutSameHead(a: seq<Id>, aStates: seq<DigitalButton>, b: seq<Id>, bStates: seq<DigitalButton>,
                        drop: set<Id>, x: Id)
    requires |aStates| == |a| > 0 && |bStates| == |b| > 0
    requires a[0] == b[0] != x && aStates[0] == bStates[0]
    requires Without(a[1..], aStates[1..], drop) == Without(b[1..], bStates[1..], drop + {x})
    ensures Without(a, aStates, drop) == Without(b, bStates, drop + {x})
  {
  }

  /** The ids of a list of (id, position) pairs. */
  function PairIds(todo: seq<(Id, nat)>): set<Id>
  {
    set p | p in todo :: p.0
  }

  /** The erase loop of ui_begin, run over (id, position) pairs in order:
    * each pair must still name its button at the recorded position (a
    * VERIFY; a position past the end is an out-of-bounds read), and that
    * button's id and state are erased. */
  function EraseAll(ids: seq<Id>, states: seq<DigitalButton>, todo: seq<(Id, nat)>)
    : (r: Outcome<(seq<Id>, seq<DigitalButton>)>)
    requires |states| == |ids|
    ensures r.Done? ==> |r.value.0| == |r.value.1|
    decreases |todo|
  {
    if |todo| == 0 then Done((ids, states))
    else
      var k := todo[0].1;
      if k < |ids| && ids[k] == todo[0].0 then
        EraseAll(ids[..k] + ids[k + 1..], states[..k] + states[k + 1..], todo[1..])
      else Aborted
  }

  /** When the erase loop gets through, it has removed exactly the listed
    * buttons and kept the others in order. */
  lemma {:induction false} EraseAllRemovesListed(ids: seq<Id>, states: seq<DigitalButton>, todo: seq<(Id, nat)>)
    requires |states| == |ids| && Unique(ids)
    requires EraseAll(ids, states, todo).Done?
    ensures EraseAll(ids, states, todo).value == Without(ids, states, PairIds(todo))
    decreases |todo|
  {
    if |todo| == 0 {
      assert PairIds(todo) == {};
      WithoutNothing(ids, states);
    } else {
      var k := todo[0].1;
      var ids', states' := ids[..k] + ids[k + 1..], states[..k] + states[k + 1..];
      assert Unique(ids') by {
        forall a, b | 0 <= a < b < |ids'|
          ensures ids'[a] != ids'[b]
        {
          var a' := if a < k then a else a + 1;
          var b' := if b < k then b else b + 1;
          assert ids'[a] == ids[a'] && ids'[b] == ids[b'];
        }
      }
      EraseAllRemovesListed(ids', states', todo[1..]);
      WithoutErase(ids, states, PairIds(todo[1..]), k);
      assert PairIds(todo) == PairIds(todo[1..]) + {ids[k]} by {
        assert todo == [todo[0]] + todo[1..];
        assert todo[0].0 == ids[k];
      }
    }
  }

  lemma {:induction false} WithoutNothing(ids: seq<Id>, states: seq<DigitalButton>)
    requires |states| == |ids|
    ensures Without(ids, states, {}) == (ids, states)
  {
    if |ids| > 0 {
      WithoutNothing(ids[1..], states[1..]);
      assert ids == [ids[0]] + ids[1..];
      assert states == [states[0]] + states[1..];
    }
  }

  /** (id, position) of every button at a position below n whose id is
    * not among the live node ids, in position order. */
  function DeadPairs(buttons: seq<Id>, live: seq<Id>, n: nat): (r: seq<(Id, nat)>)
    requires n <= |buttons|
    ensures forall p :: p in r <==> p.1 < n && buttons[p.1] == p.0 && p.0 !in live
  {
    if n == 0 then []
    else DeadPairs(buttons, live, n - 1) +
         (if buttons[n - 1] !in live then [(buttons[n - 1], n - 1)] else [])
  }

  predicate SortedById(s: seq<(Id, nat)>)
  {
    forall i, j :: 0 <= i < j < |s| ==> s[i].0 <= s[j].0
  }

  lemma SortedTail(s: seq<(Id, nat)>)
    requires SortedById(s) && |s| > 0
    ensures SortedById(s[1..]) && forall k :: 0 < k < |s| ==> s[0].0 <= s[k].0
  {
    var t := s[1..];
    forall i, j | 0 <= i < j < |t|
      ensures t[i].0 <= t[j].0
    {
      assert t[i] == s[i + 1] && t[j] == s[j + 1];
    }
  }

  lemma SortedCons(x: (Id, nat), s: seq<(Id, nat)>)
    requires SortedById(s) && forall k :: 0 <= k < |s| ==> x.0 <= s[k].0
    ensures SortedById([x] + s)
  {
    var r := [x] + s;
    forall i, j | 0 <= i < j < |r|
      ensures r[i].0 <= r[j].0
    {
      assert r[j] == s[j - 1];
      if i > 0 {
        assert r[i] == s[i - 1];
      }
    }
  }

  function InsertById(p: (Id, nat), s: seq<(Id, nat)>): (r: seq<(Id, nat)>)
    ensures multiset(r) == multiset(s) + multiset{p}
    ensures |r| == |s| + 1
  {
    if |s| == 0 || p.0 <= s[0].0 then [p] + s
    else
      assert s == [s[0]] + s[1..];
      [s[0]] + InsertById(p, s[1..])
  }

  /** Insertion into a list sorted by id keeps it sorted, and keeps every
    * id at or above a common lower bound. */
  lemma {:induction false} InsertSortedAbove(p: (Id, nat), s: seq<(Id, nat)>, b: int)
    requires SortedById(s) && b <= p.0 && forall k :: 0 <= k < |s| ==> b <= s[k].0
    ensures SortedById(InsertById(p, s))
    ensures forall k :: 0 <= k < |InsertById(p, s)| ==> b <= InsertById(p, s)[k].0
  {
    if |s| == 0 || p.0 <= s[0].0 {
      if |s| > 0 {
        SortedTail(s);
      }
      SortedCons(p, s);
    } else {
      SortedTail(s);
      InsertSortedAbove(p, s[1..], s[0].0);
      SortedCons(s[0], InsertById(p, s[1..]));
    }
  }

  lemma InsertKeepsSorted(p: (Id, nat), s: seq<(Id, nat)>)
    requires SortedById(s)
    ensures SortedById(InsertById(p, s))
  {
    if |s| == 0 {
      SortedCons(p, s);
    } else {
      SortedTail(s);
      InsertSortedAbove(p, s, Min(p.0, s[0].0));
    }
  }

  /** std::sort by id. */
  function SortById(s: seq<(Id, nat)>): (r: seq<(Id, nat)>)
    ensures multiset(r) == multiset(s)
    ensures SortedById(r)
  {
    if |s| == 0 then []
    else
      assert s == [s[0]] + s[1..];
      InsertKeepsSorted(s[0], SortById(s[1..]));
      InsertById(s[0], SortById(s[1..]))
  }

  /** The list ui_begin erases by: the buttons whose id is not among the
    * previous frame's node ids, with their positions, in increasing id
    * order (std::sort of the buttons, then std::set_difference with the
    * sorted node ids). */
  function DeadInIdOrder(buttons: seq<Id>, live: seq<Id>): (r: seq<(Id, nat)>)
    ensures SortedById(r)
    ensures forall p :: p in r <==> p.1 < |buttons| && buttons[p.1] == p.0 && p.0 !in live
  {
    var d := DeadPairs(buttons, live, |buttons|);
    var r := SortById(d);
    assert forall p :: p in r <==> p in multiset(r);
    assert forall p :: p in d <==> p in multiset(d);
    r
  }

  /** The ids ui_begin means to drop: buttons not built in the last frame. */
  function DeadIds(buttons: seq<Id>, live: seq<Id>): (r: set<Id>)
    ensures forall x :: x in r <==> x in buttons && x !in live
  {
    set x | x in buttons && x !in live
  }

  /** The list ui_begin erases by names exactly the dead buttons. */
  lemma DeadInIdOrderIds(buttons: seq<Id>, live: seq<Id>)
    ensures PairIds(DeadInIdOrder(buttons, live)) == DeadIds(buttons, live)
  {
    var r := DeadInIdOrder(buttons, live);
    forall x | x in DeadIds(buttons, live)
      ensures x in PairIds(r)
    {
      var k :| 0 <= k < |buttons| && buttons[k] == x;
      assert (x, k) in r;
    }
  }

  /** As written, erasing by recorded position in id order goes wrong once
    * a dead button sits after a dead button with a smaller id: the first
    * erase shifts it. With buttons 5 and 7 both gone, the second erase
    * looks past the end. */
  lemma TwoDeadButtonsAbort()
    ensures EraseAll([5, 7], [Idle, Idle], DeadInIdOrder([5, 7], [])) == Aborted
  {
    var d := DeadInIdOrder([5, 7], []);
    assert (5, 0) in d && (7, 1) in d;
    assert |d| == 2;
    assert d == [(5, 0), (7, 1)];
    var ids: seq<Id> := [5, 7];
    assert ids[..0] + ids[1..] == [7];
  }

  /** The same shift with a live button behind: of buttons 5, 7 and 9 only 9
    * was built. After 5 is erased, the position recorded for 7 is inside
    * the vector but holds 9, so the check itself fails. */
  lemma StaleIndexFailsCheck()
    ensures DeadInIdOrder([5, 7, 9], [9]) == [(5, 0), (7, 1)]
    ensures var afterFirst: seq<Id> := [7, 9];
            1 < |afterFirst| && afterFirst[1] != 7 &&
            EraseAll([5, 7, 9], [Idle, Idle, Idle], [(5, 0), (7, 1)]) == Aborted
  {
    var ids: seq<Id> := [5, 7, 9];
    assert DeadPairs(ids, [9], 1) == [(5, 0)];
    assert DeadPairs(ids, [9], 2) == [(5, 0), (7, 1)];
    assert DeadPairs(ids, [9], 3) == [(5, 0), (7, 1)];
    var single: seq<(Id, nat)> := [(7, 1)];
    assert single[1..] == [];
    assert SortById(single) == [(7, 1)];
    assert SortById([(5, 0), (7, 1)]) == [(5, 0), (7, 1)];
    assert ids[..0] + ids[1..] == [7, 9];
  }

  /** A single dead button is always erased cleanly. */
  lemma OneDeadButtonErased(buttons: seq<Id>, states: seq<DigitalButton>, live: seq<Id>)
    requires |states| == |buttons| && Unique(buttons)
    requires |DeadInIdOrder(buttons, live)| <= 1
    ensures EraseAll(buttons, states, DeadInIdOrder(buttons, live)).Done?
  {
    var d := DeadInIdOrder(buttons, live);
    if |d| == 1 {
      assert d[0] in d;
      var k := d[0].1;
      assert EraseAll(buttons[..k] + buttons[k + 1..], states[..k] + states[k + 1..], d[1..]).Done?;
    }
  }

  /** The erase loop of ui_begin over a computed list. */
  method EraseDead(ids0: seq<Id>, states0: seq<DigitalButton>, todo: seq<(Id, nat)>)
    returns (aborted: bool, ids: seq<Id>, states: seq<DigitalButton>)
    requires |states0| == |ids0|
    ensures aborted <==> EraseAll(ids0, states0, todo).Aborted?
    ensures !aborted ==> (ids, states) == EraseAll(ids0, states0, todo).value
  {
    ids, states := ids0, states0;
    var t := 0;
    while t < |todo|
      invariant 0 <= t <= |todo| && |states| == |ids|
      invariant EraseAll(ids, states, todo[t..]) == EraseAll(ids0, states0, todo)
    {
      var id, k := todo[t].0, todo[t].1;
      assert todo[t..][0] == todo[t] && todo[t..][1..] == todo[t + 1..];
      if !(k < |ids| && ids[k] == id) {
        return true, ids, states;
      }
      ids := ids[..k] + ids[k + 1..];
      states := states[..k] + states[k + 1..];
      t := t + 1;
    }
    aborted := false;
  }

  /** When ui_begin's erase loop gets through, the buttons left are those
    * built in the last frame, in their order, ids still distinct. */
  lemma KeptButtons(buttons: seq<Id>, states: seq<DigitalButton>, live: seq<Id>)
    requires |states| == |buttons| && Unique(buttons)
    requires EraseAll(buttons, states, DeadInIdOrder(buttons, live)).Done?
    ensures var kept := EraseAll(buttons, states, DeadInIdOrder(buttons, live)).value;
            kept == Without(buttons, states, DeadIds(buttons, live)) &&
            Unique(kept.0) && |kept.1| == |kept.0| &&
            forall x :: x in kept.0 <==> x in buttons && x in live
  {
    var todo := DeadInIdOrder(buttons, live);
    EraseAllRemovesListed(buttons, states, todo);
    DeadInIdOrderIds(buttons, live);
    WithoutUnique(buttons, states, DeadIds(buttons, live));
    WithoutMembers(buttons, states, DeadIds(buttons, live));
  }

  /** The garbage collection of ui_begin: list the dead buttons in id
    * order and erase them one at a time. */
  method DropDeadButtons(buttons: seq<Id>, states: seq<DigitalButton>, live: seq<Id>)
    returns (aborted: bool, ids: seq<Id>, kept: seq<DigitalButton>)
    requires |states| == |buttons| && Unique(buttons)
    ensures aborted <==> EraseAll(buttons, states, DeadInIdOrder(buttons, live)).Aborted?
    ensures !aborted ==> (ids, kept) == Without(buttons, states, DeadIds(buttons, live))
    ensures !aborted ==> Unique(ids) && |kept| == |ids|
  {
    var todo := DeadInIdOrder(buttons, live);
    aborted, ids, kept := EraseDead(buttons, states, todo);
    if !aborted {
      KeptButtons(buttons, states, live);
    }
  }

  /** The node columns line up and form a built tree. */
  ghost predicate NodesOk(ids: seq<Id>, names: seq<string>, types: seq<NodeType>, parents: seq<Id>,
                          depths: seq<int>, rects: seq<Rect>)
  {
    |names| == |ids| && |types| == |ids| && |rects| == |ids| && Shaped(ids, parents, depths, Max32)
  }

  /** Appending a new valid id under the parent the depth scan picks keeps
    * the columns a built tree. */
  lemma NodesAppend(ids: seq<Id>, names: seq<string>, types: seq<NodeType>, parents: seq<Id>,
                    depths: seq<int>, rects: seq<Rect>, id: Id, name: string, ty: NodeType, parent: Id,
                    depth: int, rect: Rect)
    requires NodesOk(ids, names, types, parents, depths, rects)
    requires ValidId(id, Max32) && id !in ids && ParentForDepth(ids, depths, depth) == Some(parent)
    ensures NodesOk(ids + [id], names + [name], types + [ty], parents + [parent], depths + [depth], rects + [rect])
  {
    ShapedAppend(ids, parents, depths, Max32, id, depth);
  }

  // ---------------------------------------------------------------------
  // The Ui state

  /** g_ui: the keyboard inputs, the focus, the node columns of the frame
    * being built (or last built), and the state of every button. */
  class Ui {
    /** keys_per_vk: one edge-triggered state per virtual key. */
    const keys: array<DigitalButton>
    var inputsUpdated: bool
    var shiftKey: DigitalButton
    var focusId: Id
    var focusUpdated: bool
    var depthForAdding: int
    var nodeIds: seq<Id>
    var nodeNames: seq<string>
    var nodeTypes: seq<NodeType>
    var nodeParents: seq<Id>
    var nodeDepths: seq<int>
    var nodeRects: seq<Rect>
    var buttonIds: seq<Id>
    var buttonStates: seq<DigitalButton>
    /** wyhash64(hash(name), parent id), left uninterpreted. */
    const mix: (string, Id) -> u64

    ghost predicate Valid()
      reads this
    {
      keys.Length == 256 && NodesValid() && ButtonsValid()
    }

    /** The node columns line up and form a built tree. */
    ghost predicate NodesValid()
      reads this`nodeIds, this`nodeNames, this`nodeTypes, this`nodeParents, this`nodeDepths, this`nodeRects
    {
      NodesOk(nodeIds, nodeNames, nodeTypes, nodeParents, nodeDepths, nodeRects)
    }

    /** One state per button, ids distinct. */
    ghost predicate ButtonsValid()
      reads this`buttonIds, this`buttonStates
    {
      |buttonStates| == |buttonIds| && Unique(buttonIds)
    }

    /** The check at the top of ui_end: nothing focused, or a node. */
    predicate FocusValid()
      reads this
    {
      focusId == 0 || focusId in nodeIds
    }

    constructor (mix: (string, Id) -> u64)
      ensures Valid() && FocusValid()
      ensures fresh(keys) && forall v :: 0 <= v < 256 ==> keys[v] == Idle
      ensures !inputsUpdated && shiftKey == Idle && focusId == 0 && !focusUpdated
      ensures depthForAdding == 0 && nodeIds == [] && buttonIds == []
      ensures this.mix == mix
    {
      keys := new DigitalButton[256](_ => Idle);
      inputsUpdated, shiftKey := false, Idle;
      focusId, focusUpdated := 0, false;
      depthForAdding := 0;
      nodeIds, nodeNames, nodeTypes, nodeParents, nodeDepths, nodeRects := [], [], [], [], [], [];
      buttonIds, buttonStates := [], [];
      this.mix := mix;
    }

    /** The key refresh of the window procedure: every key (and Shift) takes
      * the level of bit 7 of its keyboard-state byte, and the inputs are
      * marked as updated. */
    method PollKeys(state: seq<Byte>)
      requires Valid() && |state| == 256
      modifies keys, this`shiftKey, this`inputsUpdated
      ensures forall v :: 0 <= v < 256 ==> keys[v] == Update(old(keys[v]), Bit(state[v], 7))
      ensures shiftKey == Update(old(shiftKey), Bit(state[VkShift], 7))
      ensures inputsUpdated
    {
      for v := 0 to 256
        invariant forall w :: 0 <= w < v ==> keys[w] == Update(old(keys[w]), Bit(state[w], 7))
        invariant forall w :: v <= w < 256 ==> keys[w] == old(keys[w])
        invariant shiftKey == old(shiftKey)
      {
        keys[v] := Update(keys[v], Bit(state[v], 7));
      }
      shiftKey := Update(shiftKey, Bit(state[VkShift], 7));
      inputsUpdated := true;
    }

    /** ui_update_focus: set the focus and flag whether it changed. */
    method UpdateFocus(id: Id)
      modifies this`focusId, this`focusUpdated
      ensures focusId == id
      ensures focusUpdated <==> id != old(focusId)
    {
      var oldId := focusId;
      focusId := id;
      focusUpdated := id != oldId;
    }

    /** ui_begin: drop the state of every button that was not built in the
      * previous frame, then empty the node columns. */
    method Begin() returns (aborted: bool)
      requires Valid()
      modifies this`nodeIds, this`nodeNames, this`nodeTypes, this`nodeParents, this`nodeDepths,
               this`nodeRects, this`buttonIds, this`buttonStates
      ensures aborted <==>
                EraseAll(old(buttonIds), old(buttonStates), DeadInIdOrder(old(buttonIds), old(nodeIds))).Aborted?
      ensures !aborted ==>
                (buttonIds, buttonStates) ==
                Without(old(buttonIds), old(buttonStates), DeadIds(old(buttonIds), old(nodeIds)))
      ensures !aborted ==> Valid() && nodeIds == [] && nodeNames == [] && nodeTypes == [] &&
                           nodeParents == [] && nodeDepths == [] && nodeRects == []
    {
      aborted := CollectButtons();
      if aborted {
        return;
      }
      ClearNodes();
    }

    /** The first half of ui_begin: erase the state of every button that
      * was not built in the last frame. */
    method CollectButtons() returns (aborted: bool)
      requires Valid()
      modifies this`buttonIds, this`buttonStates
      ensures aborted <==>
                EraseAll(old(buttonIds), old(buttonStates), DeadInIdOrder(old(buttonIds), nodeIds)).Aborted?
      ensures !aborted ==>
                (buttonIds, buttonStates) ==
                Without(old(buttonIds), old(buttonStates), DeadIds(old(buttonIds), nodeIds))
      ensures !aborted ==> Unique(buttonIds) && |buttonStates| == |buttonIds|
    {
      var ids, states;
      aborted, ids, states := DropDeadButtons(buttonIds, buttonStates, nodeIds);
      if aborted {
        return;
      }
      buttonIds, buttonStates := ids, states;
    }

    /** The second half of ui_begin: empty every node column. */
    method ClearNodes()
      requires keys.Length == 256 && Unique(buttonIds) && |buttonStates| == |buttonIds|
      modifies this`nodeIds, this`nodeNames, this`nodeTypes, this`nodeParents, this`nodeDepths,
               this`nodeRects
      ensures Valid() && nodeIds == [] && nodeNames == [] && nodeTypes == [] &&
              nodeParents == [] && nodeDepths == [] && nodeRects == []
    {
      nodeIds, nodeNames, nodeTypes, nodeParents, nodeDepths, nodeRects := [], [], [], [], [], [];
    }

    /** The focus move of ui_end: read the request off the keys and move
      * to the first node, or one node forward or back. */
    method MoveFocus() returns (aborted: bool)
      requires keys.Length == 256
      modifies this`focusId, this`focusUpdated
      ensures var request := FocusRequest(keys[..], shiftKey);
              var moved := NextFocus(nodeIds, old(focusId), request.0, request.1);
              (aborted <==> moved.Aborted?) && (!aborted ==> focusId == moved.value)
    {
      var next := keys[VkDown].pressed || (!shiftKey.isDown && keys[VkTab].pressed);
      var prev := keys[VkUp].pressed || (shiftKey.isDown && keys[VkTab].pressed);
      assert (next, prev) == FocusRequest(keys[..], shiftKey);
      if focusId == 0 && |nodeIds| > 0 && (next || prev) {
        UpdateFocus(nodeIds[0]);
      } else if next {
        var found: bool, index: nat := GetIndex(nodeIds, focusId, Max32);
        if !found {
          return true;
        }
        if index + 1 < |nodeIds| {
          UpdateFocus(nodeIds[index + 1]);
        }
      } else if prev {
        var found: bool, index: nat := GetIndex(nodeIds, focusId, Max32);
        if !found {
          return true;
        }
        if index > 0 {
          UpdateFocus(nodeIds[index - 1]);
        }
      }
      aborted := false;
    }

    /** ui_end: check the focus names a node, move it as the keys ask (only
      * when the inputs were updated), clear every button's edges and the
      * update flags, and check every pane was closed. */
    method End() returns (aborted: bool)
      requires Valid()
      modifies this`focusId, this`focusUpdated, this`inputsUpdated, this`buttonStates
      ensures var request := FocusRequest(keys[..], shiftKey);
              var moved := NextFocus(nodeIds, old(focusId), request.0, request.1);
              aborted <==> !old(FocusValid()) || (old(inputsUpdated) && moved.Aborted?) ||
                           depthForAdding != 0
      ensures !aborted ==>
                var request := FocusRequest(keys[..], shiftKey);
                focusId == if old(inputsUpdated)
                           then NextFocus(nodeIds, old(focusId), request.0, request.1).value
                           else old(focusId)
      ensures !aborted ==> FocusValid() && Valid()
      ensures !aborted ==> !focusUpdated && !inputsUpdated
      ensures !aborted ==>
                |buttonStates| == |old(buttonStates)| &&
                forall k :: 0 <= k < |buttonStates| ==>
                  buttonStates[k] == DigitalButton(old(buttonStates[k]).isDown, false, false)
    {
      if !(focusId == 0 || focusId in nodeIds) {
        return true;
      }
      if inputsUpdated {
        var failed := MoveFocus();
        if failed {
          return true;
        }
      }
      buttonStates := ResetTriggers(buttonStates);
      focusUpdated := false;
      inputsUpdated := false;
      aborted := depthForAdding != 0;
    }

    /** ui_search_parent_index_for_adding: the last node one level above the
      * adding depth (None where the program aborts). */
    function ParentIndexForAdding(): (r: Option<nat>)
      reads this
      ensures r.Some? ==> r.value < |nodeDepths| && nodeDepths[r.value] == depthForAdding - 1
      ensures r.Some? ==> forall k :: r.value < k < |nodeDepths| ==> nodeDepths[k] != depthForAdding - 1
      ensures r.None? ==> depthForAdding - 1 !in nodeDepths
    {
      var k := LastIndexOf(nodeDepths, depthForAdding - 1);
      if k < 0 then None else Some(k)
    }

    /** ui_named_element aborts for a node named name: no node sits one
      * level above the adding depth, or the id it would get (the low 32
      * bits of mix(name, parent id)) is invalid or already names a node. */
    predicate NamedAborts(name: string)
      reads this`nodeIds, this`nodeDepths, this`depthForAdding
      requires |nodeDepths| == |nodeIds|
    {
      var p := ParentForDepth(nodeIds, nodeDepths, depthForAdding);
      p.None? || !ValidId(mix(name, p.value as Id) % Two32, Max32) || mix(name, p.value as Id) % Two32 in nodeIds
    }

    /** The node columns grew by the row ui_named_element appends for node
      * id named name: the text it shows, its type, the parent the depth scan
      * picked, the adding depth, and the placeholder box {0, 0, 200, 200}. */
    twostate predicate Appended(id: Id, name: string, shown: string, ty: NodeType)
      reads this`nodeIds, this`nodeNames, this`nodeTypes, this`nodeParents, this`nodeDepths,
            this`nodeRects, this`depthForAdding
    {
      old(|nodeDepths| == |nodeIds|) && old(ParentForDepth(nodeIds, nodeDepths, depthForAdding)).Some? &&
      id == mix(name, old(ParentForDepth(nodeIds, nodeDepths, depthForAdding)).value as Id) % Two32 &&
      nodeIds == old(nodeIds) + [id] &&
      nodeNames == old(nodeNames) + [shown] &&
      nodeTypes == old(nodeTypes) + [ty] &&
      nodeParents == old(nodeParents) + [old(ParentForDepth(nodeIds, nodeDepths, depthForAdding)).value as Id] &&
      nodeDepths == old(nodeDepths) + [old(depthForAdding)] &&
      nodeRects == old(nodeRects) + [Rect(0, 0, 200, 200)]
    }

    /** No node column changed. */
    twostate predicate NodesKept()
      reads this`nodeIds, this`nodeNames, this`nodeTypes, this`nodeParents, this`nodeDepths, this`nodeRects
    {
      nodeIds == old(nodeIds) && nodeNames == old(nodeNames) && nodeTypes == old(nodeTypes) &&
      nodeParents == old(nodeParents) && nodeDepths == old(nodeDepths) && nodeRects == old(nodeRects)
    }

    /** ui_named_element: append a node at the adding depth under the last
      * node one level up (the root at depth 0). Its id is the low 32 bits of
      * mix(name, parent id); it must be valid and new. It shows `text` when
      * given, else `name`, and gets the placeholder box {0, 0, 200, 200}. */
    method NamedElement(name: string, ty: NodeType, text: Option<string>) returns (aborted: bool, id: Id)
      requires Valid()
      modifies this`nodeIds, this`nodeNames, this`nodeTypes, this`nodeParents, this`nodeDepths,
               this`nodeRects
      ensures Valid()
      ensures aborted <==> old(NamedAborts(name))
      ensures aborted ==> NodesKept()
      ensures !aborted ==> Appended(id, name, if text.Some? then text.value else name, ty)
    {
      var found: bool, parentId: Id;
      found, parentId, id := NewNodeId(name);
      if !found {
        return true, 0;
      }
      if !ValidId(id, Max32) || id in nodeIds {
        return true, id;
      }
      AppendNode(id, if text.Some? then text.value else name, ty, parentId);
      aborted := false;
    }

    /** The parent search and id generation of ui_named_element: the parent
      * is the root at depth 0, else the last node one level up; the id is
      * the low 32 bits of mix(name, parent id). */
    method NewNodeId(name: string) returns (found: bool, parentId: Id, id: Id)
      requires Valid()
      ensures found <==> ParentForDepth(nodeIds, nodeDepths, depthForAdding).Some?
      ensures found ==> ParentForDepth(nodeIds, nodeDepths, depthForAdding) == Some(parentId) &&
                        id == mix(name, parentId) % Two32
    {
      parentId, id := 0, 0;
      if depthForAdding != 0 {
        var parentIndex := ParentIndexForAdding();
        if parentIndex.None? {
          return false, 0, 0;
        }
        parentId := nodeIds[parentIndex.value];
      }
      var genid := mix(name, parentId);
      LowBitsFitU32(genid);
      id := Bits(genid, 0, 32);
      found := true;
    }

    /** The push_back of every column in ui_named_element. */
    method AppendNode(id: Id, shown: string, ty: NodeType, parentId: Id)
      requires Valid() && ValidId(id, Max32) && id !in nodeIds
      requires ParentForDepth(nodeIds, nodeDepths, depthForAdding) == Some(parentId)
      modifies this`nodeIds, this`nodeNames, this`nodeTypes, this`nodeParents, this`nodeDepths,
               this`nodeRects
      ensures Valid()
      ensures nodeIds == old(nodeIds) + [id] && nodeNames == old(nodeNames) + [shown] &&
              nodeTypes == old(nodeTypes) + [ty] && nodeParents == old(nodeParents) + [parentId] &&
              nodeDepths == old(nodeDepths) + [depthForAdding] &&
              nodeRects == old(nodeRects) + [Rect(0, 0, 200, 200)]
    {
      NodesAppend(nodeIds, nodeNames, nodeTypes, nodeParents, nodeDepths, nodeRects,
                  id, shown, ty, parentId, depthForAdding, Rect(0, 0, 200, 200));
      nodeIds := nodeIds + [id];
      nodeNames := nodeNames + [shown];
      nodeTypes := nodeTypes + [ty];
      nodeDepths := nodeDepths + [depthForAdding];
      nodeParents := nodeParents + [parentId];
      nodeRects := nodeRects + [Rect(0, 0, 200, 200)];
    }

    /** ui_text_paragraph: a Text element showing its content. */
    method TextParagraph(content: string) returns (aborted: bool, id: Id)
      requires Valid()
      modifies this`nodeIds, this`nodeNames, this`nodeTypes, this`nodeParents, this`nodeDepths,
               this`nodeRects
      ensures Valid()
      ensures aborted <==> old(NamedAborts(content))
      ensures aborted ==> NodesKept()
      ensures !aborted ==> Appended(id, content, content, Text)
    {
      aborted, id := NamedElement(content, Text, None);
    }

    /** ui_button: a Button element plus its persistent key state. The state
      * found under the id (a fresh one is appended the first time) takes
      * the level "inputs updated, this button focused and Return down"; the
      * button is activated when that update reports a release. */
    method ButtonElement(name: string, text: Option<string>) returns (aborted: bool, id: Id, activated: bool)
      requires Valid()
      modifies this`nodeIds, this`nodeNames, this`nodeTypes, this`nodeParents, this`nodeDepths,
               this`nodeRects, this`buttonIds, this`buttonStates
      ensures Valid()
      ensures aborted <==> old(NamedAborts(name))
      ensures aborted ==> NodesKept()
      ensures !aborted ==> Appended(id, name, if text.Some? then text.value else name, Button)
      ensures !aborted ==>
                buttonIds == (if id in old(buttonIds) then old(buttonIds) else old(buttonIds) + [id])
      ensures !aborted ==>
                var j := FirstIndex(buttonIds, id);
                var before := if id in old(buttonIds) then old(buttonStates)[j] else Idle;
                var level := inputsUpdated && focusId == id && keys[VkReturn].isDown;
                j < |buttonStates| &&
                buttonStates ==
                  (if id in old(buttonIds) then old(buttonStates) else old(buttonStates) + [Idle])[j := Update(before, level)] &&
                (activated <==> before.isDown && !level)
      ensures aborted ==> buttonIds == old(buttonIds) && buttonStates == old(buttonStates)
    {
      activated := false;
      aborted, id := NamedElement(name, Button, text);
      if aborted {
        return;
      }
      var index := FirstIndex(buttonIds, id);
      if index == |buttonIds| {
        assert Unique(buttonIds + [id]);
        buttonIds := buttonIds + [id];
        buttonStates := buttonStates + [Idle];
      }
      var level := inputsUpdated && focusId == id && keys[VkReturn].isDown;
      var state := Update(buttonStates[index], level);
      buttonStates := buttonStates[index := state];
      activated := state.released;
    }

    /** ui_pane_begin: a Pane element; what follows goes one level deeper. */
    method PaneBegin(name: string) returns (aborted: bool, id: Id)
      requires Valid()
      modifies this`nodeIds, this`nodeNames, this`nodeTypes, this`nodeParents, this`nodeDepths,
               this`nodeRects, this`depthForAdding
      ensures Valid()
      ensures aborted <==> old(NamedAborts(name))
      ensures aborted ==> NodesKept() && depthForAdding == old(depthForAdding)
      ensures !aborted ==> Appended(id, name, name, Pane) && depthForAdding == old(depthForAdding) + 1
    {
      aborted, id := NamedElement(name, Pane, None);
      if !aborted {
        depthForAdding := depthForAdding + 1;
      }
    }

    /** ui_pane_end: the pane being closed must be the last node one level
      * above the adding depth; the adding depth goes back to the pane's. */
    method PaneEnd(pane: Id) returns (aborted: bool)
      requires Valid()
      modifies this`depthForAdding
      ensures var p := old(ParentIndexForAdding());
              aborted <==> p.None? || nodeIds[p.value] != pane
      ensures aborted ==> depthForAdding == old(depthForAdding)
      ensures !aborted ==> depthForAdding == old(depthForAdding) - 1 &&
                           depthForAdding == nodeDepths[old(ParentIndexForAdding()).value]
    {
      var paneIndex := ParentIndexForAdding();
      if paneIndex.None? {
        return true;
      }
      if nodeIds[paneIndex.value] != pane {
        return true;
      }
      depthForAdding := depthForAdding - 1;
      aborted := false;
    }

    /** A pane closed right after it is opened: closing finds it, and the
      * adding depth is back where it was. */
    method EmptyPane(name: string) returns (aborted: bool, id: Id)
      requires Valid()
      modifies this`nodeIds, this`nodeNames, this`nodeTypes, this`nodeParents, this`nodeDepths,
               this`nodeRects, this`depthForAdding
      ensures Valid()
      ensures aborted <==> old(NamedAborts(name))
      ensures aborted ==> NodesKept() && depthForAdding == old(depthForAdding)
      ensures !aborted ==> depthForAdding == old(depthForAdding) && Appended(id, name, name, Pane)
    {
      aborted, id := PaneBegin(name);
      if aborted {
        return;
      }
      assert LastIndexOf(nodeDepths, depthForAdding - 1) == |nodeIds| - 1;
      aborted := PaneEnd(id);
      assert !aborted;
    }

    /** ElementProviderFromPoint: the deepest node (last in build order among
      * the deepest) whose box holds the point, or the root when none does. */
    method ElementFromPoint(pt: Point) returns (r: Target)
      requires Valid()
      ensures (forall k :: 0 <= k < |nodeIds| ==> !Hit(nodeDepths, nodeRects, pt, k)) ==> r == RootElement
      ensures (exists k :: 0 <= k < |nodeIds| && Hit(nodeDepths, nodeRects, pt, k)) ==>
                exists j :: 0 <= j < |nodeIds| && r == Element(nodeIds[j]) &&
                            DeepestLast(nodeDepths, nodeRects, pt, j)
    {
      var id := DeepestContaining(nodeIds, nodeDepths, nodeRects, pt, 0);
      if id != 0 {
        r := Element(id);
      } else {
        r := RootElement;
        assert forall k :: 0 <= k < |nodeIds| ==> nodeIds[k] != 0;
      }
    }
  }

  const VkShift := 0x10
}
