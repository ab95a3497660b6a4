/**
 The week grid's editing rules. In availability mode a press on a cell
 starts a drag that either adds or removes every editable cell it passes
 over. In booking mode a click selects one shared, unblocked cell. The grid
 never owns the selection: it reports a new list through `onChangeSlots`,
 and the parent passes it back in as `selectedSlots`.
 */
module AvailabilityGrid {
  import opened Common

  datatype Mode = Availability | Booking
  datatype DragMode = Add | Remove

  /** The props that decide behaviour; the callbacks are reduced to whether they were passed. */
  datatype GridProps = GridProps(
    selectedSlots: seq<string>,
    hasOnChangeSlots: bool,
    selectableSlots: Option<seq<string>>,
    blockedSlots: Option<seq<string>>,
    activeSlotKey: Option<string>,
    hasOnSelectSlot: bool,
    mode: Mode)

  /** The component's own state: `isDragging` and `dragMode`. */
  datatype DragState = DragState(isDragging: bool, dragMode: DragMode)

  const InitialDrag: DragState := DragState(false, Add)

  /** What one event handler does: the new drag state, the list passed to `onChangeSlots`, the key passed to `onSelectSlot`. */
  datatype Effect = Effect(drag: DragState, changed: Option<seq<string>>, selected: Option<string>)

  // ---------------------------------------------------------------------
  // Insertion-ordered sets
  // ---------------------------------------------------------------------

  /** The position at which `x` first occurs in `s`. */
  function FirstIndex(s: seq<string>, x: string): (k: nat)
    requires x in s
    ensures k < |s| && s[k] == x
    ensures forall j :: 0 <= j < k ==> s[j] != x
  {
    if s[0] == x then 0 else FirstIndex(s[1..], x) + 1
  }

  /** An occurrence with none before it is the first. */
  lemma FirstIndexIs(s: seq<string>, x: string, k: nat)
    requires k < |s| && s[k] == x
    requires forall j :: 0 <= j < k ==> s[j] != x
    ensures FirstIndex(s, x) == k
  {
    var m := FirstIndex(s, x);
    assert !(m < k) && !(k < m);
  }

  /** Extending a list at the end moves no first occurrence; a new element first occurs at the end. */
  lemma FirstIndexExtend(s: seq<string>)
    requires |s| > 0
    ensures forall x :: x in s[..|s| - 1] ==> FirstIndex(s, x) == FirstIndex(s[..|s| - 1], x) < |s| - 1
    ensures s[|s| - 1] !in s[..|s| - 1] ==> FirstIndex(s, s[|s| - 1]) == |s| - 1
  {
    var p := s[..|s| - 1];
    forall x | x in p
      ensures FirstIndex(s, x) == FirstIndex(p, x)
    {
      var k := FirstIndex(p, x);
      assert forall j :: 0 <= j < k ==> s[j] == p[j];
      FirstIndexIs(s, x, k);
    }
    if s[|s| - 1] !in p {
      assert forall j :: 0 <= j < |s| - 1 ==> s[j] == p[j];
      FirstIndexIs(s, s[|s| - 1], |s| - 1);
    }
  }

  /**
   `Array.from(new Set(s))`: each element once, in the order of first
   occurrence.
   */
  function Dedupe(s: seq<string>): (r: seq<string>)
    ensures forall x :: x in r <==> x in s
    ensures NoDuplicates(r)
    ensures |r| <= |s|
    ensures forall i, j :: 0 <= i < j < |r| ==> FirstIndex(s, r[i]) < FirstIndex(s, r[j])
  {
    if |s| == 0 then []
    else
      var front := Dedupe(s[..|s| - 1]);
      assert forall x :: x in s <==> x in s[..|s| - 1] || x == s[|s| - 1];
      FirstIndexExtend(s);
      if s[|s| - 1] in front then front else front + [s[|s| - 1]]
  }

  /** A list without duplicates is already its own set. */
  lemma {:induction false} DedupeDistinct(s: seq<string>)
    requires NoDuplicates(s)
    ensures Dedupe(s) == s
  {
    if |s| > 0 {
      DedupeDistinct(s[..|s| - 1]);
      assert s[|s| - 1] !in s[..|s| - 1];
      assert s[..|s| - 1] + [s[|s| - 1]] == s;
    }
  }

  /** `set.delete(key)` on an insertion-ordered set: the others keep their order. */
  function Without(s: seq<string>, key: string): (r: seq<string>)
    ensures forall x :: x in r <==> x in s && x != key
    ensures IsSubsequence(r, s)
  {
    if |s| == 0 then []
    else
      var rest := Without(s[1..], key);
      assert forall x :: x in s <==> x == s[0] || x in s[1..];
      if s[0] == key then rest else [s[0]] + rest
  }

  /** Removing a key that is not there changes nothing. */
  lemma {:induction false} WithoutAbsent(s: seq<string>, key: string)
    requires key !in s
    ensures Without(s, key) == s
  {
    if |s| > 0 {
      WithoutAbsent(s[1..], key);
    }
  }

  /** Removing from a list without duplicates keeps it without duplicates. */
  lemma {:induction false} WithoutDistinct(s: seq<string>, key: string)
    requires NoDuplicates(s)
    ensures NoDuplicates(Without(s, key))
  {
    if |s| > 0 {
      WithoutDistinct(s[1..], key);
      var rest := Without(s[1..], key);
      if s[0] != key {
        assert s[0] !in s[1..];
        assert s[0] !in rest;
        assert forall j :: 1 <= j < |[s[0]] + rest| ==> ([s[0]] + rest)[j] == rest[j - 1];
      }
    }
  }

  // ---------------------------------------------------------------------
  // Painting
  // ---------------------------------------------------------------------

  /**
   `updateSlot`: nothing without a change handler; otherwise the current
   selection as a set, with `key` added or deleted, in insertion order.
   */
  function UpdateSlot(props: GridProps, key: string, mode: DragMode): (changed: Option<seq<string>>)
    ensures changed.Some? <==> props.hasOnChangeSlots
    ensures changed.Some? ==> NoDuplicates(changed.value)
    ensures changed.Some? && mode == Add ==>
      forall x :: x in changed.value <==> x in props.selectedSlots || x == key
    ensures changed.Some? && mode == Remove ==>
      forall x :: x in changed.value <==> x in props.selectedSlots && x != key
  {
    if !props.hasOnChangeSlots then None
    else
      var current := Dedupe(props.selectedSlots);
      match mode
      case Add => Some(if key in current then current else current + [key])
      case Remove => WithoutDistinct(current, key); Some(Without(current, key))
  }

  /** Adding keeps the old selection, in its order, and appends the key only if it is new. */
  lemma AddKeepsOrder(props: GridProps, key: string)
    requires props.hasOnChangeSlots && NoDuplicates(props.selectedSlots)
    ensures UpdateSlot(props, key, Add) == Some(
      if key in props.selectedSlots then props.selectedSlots else props.selectedSlots + [key])
  {
    DedupeDistinct(props.selectedSlots);
  }

  /** Adding a new key and removing it again restores the selection exactly. */
  lemma AddThenRemove(props: GridProps, key: string)
    requires props.hasOnChangeSlots && NoDuplicates(props.selectedSlots) && key !in props.selectedSlots
    ensures var added := UpdateSlot(props, key, Add).value;
            UpdateSlot(props.(selectedSlots := added), key, Remove) == Some(props.selectedSlots)
  {
    var s := props.selectedSlots;
    DedupeDistinct(s);
    var added := s + [key];
    assert UpdateSlot(props, key, Add) == Some(added);
    assert NoDuplicates(added);
    DedupeDistinct(added);
    WithoutAppend(s, key);
  }

  lemma {:induction false} WithoutAppend(s: seq<string>, key: string)
    requires key !in s
    ensures Without(s + [key], key) == s
  {
    if |s| == 0 {
      assert Without([key], key) == Without([key][1..], key);
    } else {
      assert (s + [key])[1..] == s[1..] + [key];
      WithoutAppend(s[1..], key);
    }
  }

  /** `startDrag`: remove when the pressed cell is selected, add otherwise, and apply it to that cell. */
  function StartDrag(props: GridProps, drag: DragState, key: string): (e: Effect)
    ensures !props.hasOnChangeSlots ==> e == Effect(drag, None, None)
    ensures props.hasOnChangeSlots ==>
      e.drag.isDragging && (e.drag.dragMode == Remove <==> key in props.selectedSlots)
    ensures props.hasOnChangeSlots ==>
      && e.changed.Some?
      && forall x :: x in e.changed.value <==>
           (if x == key then key !in props.selectedSlots else x in props.selectedSlots)
    ensures e.selected == None
  {
    if !props.hasOnChangeSlots then Effect(drag, None, None)
    else
      var mode := if key in props.selectedSlots then Remove else Add;
      Effect(DragState(true, mode), UpdateSlot(props, key, mode), None)
  }

  /** `dragOver`: apply the mode chosen at the press, only while a drag is on. */
  function DragOver(props: GridProps, drag: DragState, key: string): (e: Effect)
    ensures e.drag == drag && e.selected == None
    ensures e.changed.Some? <==> drag.isDragging && props.hasOnChangeSlots
    ensures e.changed.Some? ==> e.changed == UpdateSlot(props, key, drag.dragMode)
  {
    if !drag.isDragging || !props.hasOnChangeSlots then Effect(drag, None, None)
    else Effect(drag, UpdateSlot(props, key, drag.dragMode), None)
  }

  /** The window's `mouseup` listener: the drag ends, the mode is kept. */
  function MouseUp(drag: DragState): (d: DragState)
    ensures !d.isDragging && d.dragMode == drag.dragMode
  {
    drag.(isDragging := false)
  }

  // ---------------------------------------------------------------------
  // Cell predicates and handlers
  // ---------------------------------------------------------------------

  /** No `selectableSlots` means every cell may be used; otherwise only the listed ones. */
  function IsSelectable(props: GridProps, key: string): (b: bool)
    ensures props.selectableSlots.None? ==> b
    ensures props.selectableSlots.Some? ==> (b <==> key in props.selectableSlots.value)
  {
    match props.selectableSlots
    case None => true
    case Some(slots) => key in slots
  }

  /** No `blockedSlots` means no cell is blocked; otherwise exactly the listed ones are. */
  function IsBlocked(props: GridProps, key: string): (b: bool)
    ensures props.blockedSlots.None? ==> !b
    ensures props.blockedSlots.Some? ==> (b <==> key in props.blockedSlots.value)
  {
    match props.blockedSlots
    case None => false
    case Some(slots) => key in slots
  }

  /**
   `canDragEdit`: availability mode, an edit callback, and a cell that every
   list passed allows.
   */
  function CanDragEdit(props: GridProps, key: string): (b: bool)
    ensures b <==>
      && props.mode == Availability && props.hasOnChangeSlots
      && (props.selectableSlots.Some? ==> key in props.selectableSlots.value)
      && (props.blockedSlots.Some? ==> key !in props.blockedSlots.value)
  {
    props.mode == Availability && IsSelectable(props, key) && !IsBlocked(props, key) && props.hasOnChangeSlots
  }

  /** `canClickSelect`: booking mode and a cell that every list passed allows; no callback is needed. */
  function CanClickSelect(props: GridProps, key: string): (b: bool)
    ensures b <==>
      && props.mode == Booking
      && (props.selectableSlots.Some? ==> key in props.selectableSlots.value)
      && (props.blockedSlots.Some? ==> key !in props.blockedSlots.value)
  {
    props.mode == Booking && IsSelectable(props, key) && !IsBlocked(props, key)
  }

  /**
   A cell is enabled when it can be painted or picked: it is selectable and
   not blocked, and in availability mode the grid also has an edit handler.
   */
  function IsEnabled(props: GridProps, key: string): (b: bool)
    ensures b <==>
      && (props.mode == Availability ==> props.hasOnChangeSlots)
      && IsSelectable(props, key) && !IsBlocked(props, key)
  {
    CanDragEdit(props, key) || CanClickSelect(props, key)
  }

  /** Without the optional lists every cell is selectable and none is blocked. */
  lemma DefaultsOpenEveryCell(props: GridProps, key: string)
    requires props.selectableSlots.None? && props.blockedSlots.None?
    ensures CanDragEdit(props, key) <==> props.mode == Availability && props.hasOnChangeSlots
    ensures CanClickSelect(props, key) <==> props.mode == Booking
  {
  }

  /** A cell is never both paintable and pickable, and a blocked cell is neither. */
  lemma CellPredicatesExclusive(props: GridProps, key: string)
    ensures !(CanDragEdit(props, key) && CanClickSelect(props, key))
    ensures IsBlocked(props, key) ==> !IsEnabled(props, key)
  {
  }

  function MouseDown(props: GridProps, drag: DragState, key: string): (e: Effect)
    ensures !CanDragEdit(props, key) ==> e == Effect(drag, None, None)
    ensures CanDragEdit(props, key) ==> e == StartDrag(props, drag, key)
  {
    if CanDragEdit(props, key) then StartDrag(props, drag, key) else Effect(drag, None, None)
  }

  function MouseEnter(props: GridProps, drag: DragState, key: string): (e: Effect)
    ensures e.drag == drag && e.selected == None
    ensures e.changed.Some? <==> CanDragEdit(props, key) && drag.isDragging
    ensures e.changed.Some? ==> e.changed == UpdateSlot(props, key, drag.dragMode)
  {
    if CanDragEdit(props, key) then DragOver(props, drag, key) else Effect(drag, None, None)
  }

  /** A click picks the cell exactly when there is a handler and the cell may be picked. */
  function Click(props: GridProps, drag: DragState, key: string): (e: Effect)
    ensures e.drag == drag && e.changed == None
    ensures e.selected.Some? <==> props.hasOnSelectSlot && CanClickSelect(props, key)
    ensures e.selected.Some? ==> e.selected.value == key
  {
    if props.hasOnSelectSlot && CanClickSelect(props, key) then Effect(drag, None, Some(key))
    else Effect(drag, None, None)
  }

  /** A blocked cell ignores every event. */
  lemma BlockedCellInert(props: GridProps, drag: DragState, key: string)
    requires IsBlocked(props, key)
    ensures MouseDown(props, drag, key) == Effect(drag, None, None)
    ensures MouseEnter(props, drag, key) == Effect(drag, None, None)
    ensures Click(props, drag, key) == Effect(drag, None, None)
  {
  }

  // ---------------------------------------------------------------------
  // A whole drag
  // ---------------------------------------------------------------------

  /**
   The selection after the pointer enters `keys` in turn during a drag, with
   the parent feeding each reported list back as the next `selectedSlots`.
   */
  function DragAcross(props: GridProps, drag: DragState, keys: seq<string>): seq<string>
    decreases |keys|
  {
    if |keys| == 0 then props.selectedSlots
    else
      var e := MouseEnter(props, drag, keys[0]);
      var next := if e.changed.Some? then props.(selectedSlots := e.changed.value) else props;
      DragAcross(next, drag, keys[1..])
  }

  /** An adding drag selects every editable cell it crosses and keeps what was selected. */
  lemma {:induction false} AddDragPaints(props: GridProps, drag: DragState, keys: seq<string>)
    requires drag == DragState(true, Add)
    ensures forall x :: x in DragAcross(props, drag, keys) <==>
      x in props.selectedSlots || (x in keys && CanDragEdit(props, x))
    decreases |keys|
  {
    if |keys| > 0 {
      var e := MouseEnter(props, drag, keys[0]);
      var next := if e.changed.Some? then props.(selectedSlots := e.changed.value) else props;
      AddDragPaints(next, drag, keys[1..]);
      assert forall x :: x in keys <==> x == keys[0] || x in keys[1..];
      assert forall x :: CanDragEdit(next, x) == CanDragEdit(props, x);
    }
  }

  /** A removing drag clears every editable cell it crosses and keeps the rest. */
  lemma {:induction false} RemoveDragErases(props: GridProps, drag: DragState, keys: seq<string>)
    requires drag == DragState(true, Remove)
    ensures forall x :: x in DragAcross(props, drag, keys) <==>
      x in props.selectedSlots && !(x in keys && CanDragEdit(props, x))
    decreases |keys|
  {
    if |keys| > 0 {
      var e := MouseEnter(props, drag, keys[0]);
      var next := if e.changed.Some? then props.(selectedSlots := e.changed.value) else props;
      RemoveDragErases(next, drag, keys[1..]);
      assert forall x :: x in keys <==> x == keys[0] || x in keys[1..];
      assert forall x :: CanDragEdit(next, x) == CanDragEdit(props, x);
    }
  }

  /** Once the mouse is released, moving over cells changes nothing. */
  lemma {:induction false} ReleasedDragIsInert(props: GridProps, drag: DragState, keys: seq<string>)
    ensures DragAcross(props, MouseUp(drag), keys) == props.selectedSlots
    decreases |keys|
  {
    if |keys| > 0 {
      ReleasedDragIsInert(props, drag, keys[1..]);
    }
  }
}
