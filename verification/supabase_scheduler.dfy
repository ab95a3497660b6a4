/**
 The data-access layer, with the hosted database replaced by abstract state.

 Bookings come back as snake_case rows; availability lives in a table of
 (interviewer, slot) rows that is read all at once and grouped per
 interviewer, and written one interviewer at a time by deleting all of that
 interviewer's rows and inserting the new ones. Whether the delete or the
 insert fails is an input: the database itself is not modelled.
 */
module SupabaseScheduler {
  import opened Common

  /** A nullable optional column: left out of the object, `null`, or a string. */
  datatype Nullable = Absent | Null | Present(value: string)

  datatype Interviewer = Interviewer(id: string, fullName: string)

  /** A booking row as the database returns it. */
  datatype SchedulerBooking = SchedulerBooking(
    id: string,
    candidateName: string,
    candidateEmail: string,
    interviewerAId: string,
    interviewerBId: string,
    slotKey: string,
    createdAt: string,
    firstPreference: Nullable,
    secondPreference: Nullable)

  /** The object handed to `createBooking`. */
  datatype CreateBookingInput = CreateBookingInput(
    candidateName: string,
    candidateEmail: string,
    interviewerAId: string,
    interviewerBId: string,
    slotKey: string,
    firstPreference: Nullable,
    secondPreference: Nullable)

  /**
   The row `createBooking` returns for an insert that succeeded: the input's
   columns, the id and timestamp the database generated, and `null` for an
   optional column the input left out.
   */
  function InsertedBooking(input: CreateBookingInput, id: string, createdAt: string): (row: SchedulerBooking)
    ensures row.id == id && row.createdAt == createdAt
    ensures row.candidateName == input.candidateName && row.candidateEmail == input.candidateEmail
    ensures row.slotKey == input.slotKey
    ensures row.interviewerAId == input.interviewerAId && row.interviewerBId == input.interviewerBId
    ensures input.firstPreference == Absent ==> row.firstPreference == Null
    ensures input.firstPreference != Absent ==> row.firstPreference == input.firstPreference
    ensures input.secondPreference == Absent ==> row.secondPreference == Null
    ensures input.secondPreference != Absent ==> row.secondPreference == input.secondPreference
  {
    SchedulerBooking(
      id, input.candidateName, input.candidateEmail, input.interviewerAId, input.interviewerBId,
      input.slotKey, createdAt,
      if input.firstPreference == Absent then Null else input.firstPreference,
      if input.secondPreference == Absent then Null else input.secondPreference)
  }

  // ---------------------------------------------------------------------
  // Blocked slots over rows
  // ---------------------------------------------------------------------

  /** Interviewer `aId` or `bId` is one of the two participants of the row. */
  function RowInvolves(booking: SchedulerBooking, aId: string, bId: string): (b: bool)
    ensures b <==> || booking.interviewerAId == aId || booking.interviewerAId == bId
                   || booking.interviewerBId == aId || booking.interviewerBId == bId
  {
    var participants := [booking.interviewerAId, booking.interviewerBId];
    aId in participants || bId in participants
  }

  /** How many rows involve A or B and take slot `s`. */
  ghost function RowsInvolvedAt(bookings: seq<SchedulerBooking>, aId: string, bId: string, s: string): nat
  {
    if |bookings| == 0 then 0
    else
      (if RowInvolves(bookings[0], aId, bId) && bookings[0].slotKey == s then 1 else 0)
      + RowsInvolvedAt(bookings[1..], aId, bId, s)
  }

  /** The snake_case `getBookedSlotsForPair`: one slot per row in which A or B takes part. */
  function BookedSlotsForPair(bookings: seq<SchedulerBooking>, aId: string, bId: string): (slots: seq<string>)
    ensures |slots| <= |bookings|
    ensures forall s :: s in slots <==>
      exists booking :: booking in bookings && booking.slotKey == s &&
        (booking.interviewerAId == aId || booking.interviewerBId == aId ||
         booking.interviewerAId == bId || booking.interviewerBId == bId)
    ensures forall s :: multiset(slots)[s] == RowsInvolvedAt(bookings, aId, bId, s)
  {
    if |bookings| == 0 then []
    else
      var rest := BookedSlotsForPair(bookings[1..], aId, bId);
      assert forall b :: b in bookings <==> b == bookings[0] || b in bookings[1..];
      if RowInvolves(bookings[0], aId, bId) then [bookings[0].slotKey] + rest else rest
  }

  /** A row that involves neither interviewer contributes nothing, wherever it sits. */
  lemma {:induction false} BookedSlotsSkipUnrelated(
    before: seq<SchedulerBooking>, other: SchedulerBooking, after: seq<SchedulerBooking>,
    aId: string, bId: string)
    requires !RowInvolves(other, aId, bId)
    ensures BookedSlotsForPair(before + [other] + after, aId, bId)
         == BookedSlotsForPair(before + after, aId, bId)
    decreases |before|
  {
    if |before| == 0 {
      assert (before + [other] + after)[1..] == after;
      assert before + after == after;
    } else {
      assert (before + [other] + after)[1..] == before[1..] + [other] + after;
      assert (before + after)[1..] == before[1..] + after;
      BookedSlotsSkipUnrelated(before[1..], other, after, aId, bId);
    }
  }

  // ---------------------------------------------------------------------
  // The availability table
  // ---------------------------------------------------------------------

  /** One row of `interviewer_slots`. */
  datatype SlotRow = SlotRow(interviewerId: string, slotKey: string)

  /** The slot keys the table holds for `id`, in row order. */
  function SlotsOf(rows: seq<SlotRow>, id: string): (slots: seq<string>)
    ensures |slots| <= |rows|
  {
    if |rows| == 0 then []
    else
      var last := rows[|rows| - 1];
      SlotsOf(rows[..|rows| - 1], id) + (if last.interviewerId == id then [last.slotKey] else [])
  }

  /** The interviewers that own at least one row. */
  function IdsOf(rows: seq<SlotRow>): set<string>
  {
    set row | row in rows :: row.interviewerId
  }

  lemma {:induction false} SlotsOfEmpty(rows: seq<SlotRow>, id: string)
    ensures SlotsOf(rows, id) == [] <==> id !in IdsOf(rows)
  {
    if |rows| > 0 {
      var init := rows[..|rows| - 1];
      SlotsOfEmpty(init, id);
      assert rows == init + [rows[|rows| - 1]];
      assert IdsOf(rows) == IdsOf(init) + {rows[|rows| - 1].interviewerId};
    }
  }

  /** Reading the slots of two concatenated tables reads each in turn. */
  lemma {:induction false} SlotsOfAppend(front: seq<SlotRow>, back: seq<SlotRow>, id: string)
    ensures SlotsOf(front + back, id) == SlotsOf(front, id) + SlotsOf(back, id)
    decreases |back|
  {
    if |back| > 0 {
      var all := front + back;
      assert all[..|all| - 1] == front + back[..|back| - 1];
      assert all[|all| - 1] == back[|back| - 1];
      SlotsOfAppend(front, back[..|back| - 1], id);
    } else {
      assert front + back == front;
    }
  }

  /**
   Reference view of the grouping: every interviewer that owns a row, mapped to
   that interviewer's slot keys in row order.
   */
  function Grouped(rows: seq<SlotRow>): map<string, seq<string>>
  {
    map id | id in IdsOf(rows) :: SlotsOf(rows, id)
  }

  /** The grouping loop of `getAllAvailability`, over the rows the query returned. */
  method GetAllAvailability(rows: seq<SlotRow>) returns (result: map<string, seq<string>>)
    ensures result == Grouped(rows)
    ensures forall id :: id in result ==> |result[id]| > 0
  {
    result := map[];
    var i := 0;
    while i < |rows|
      invariant 0 <= i <= |rows|
      invariant result.Keys == IdsOf(rows[..i])
      invariant forall id :: id in result ==> result[id] == SlotsOf(rows[..i], id)
    {
      var row := rows[i];
      GroupStep(rows, i, result);
      var previous := if row.interviewerId in result then result[row.interviewerId] else [];
      result := result[row.interviewerId := previous + [row.slotKey]];
      i := i + 1;
    }
    GroupDone(rows, result);
  }

  /** After the last row the loop's map is the grouped view, with no empty list in it. */
  lemma GroupDone(rows: seq<SlotRow>, result: map<string, seq<string>>)
    requires result.Keys == IdsOf(rows[..|rows|])
    requires forall id :: id in result ==> result[id] == SlotsOf(rows[..|rows|], id)
    ensures result == Grouped(rows)
    ensures forall id :: id in result ==> |result[id]| > 0
  {
    assert rows[..|rows|] == rows;
    forall id | id in result
      ensures |result[id]| > 0
    {
      SlotsOfEmpty(rows, id);
    }
  }

  /** One pass of the grouping loop extends the grouped view of the rows read so far by row i. */
  lemma GroupStep(rows: seq<SlotRow>, i: nat, result: map<string, seq<string>>)
    requires i < |rows|
    requires result.Keys == IdsOf(rows[..i])
    requires forall id :: id in result ==> result[id] == SlotsOf(rows[..i], id)
    ensures var row := rows[i];
            var next := result[row.interviewerId :=
              (if row.interviewerId in result then result[row.interviewerId] else []) + [row.slotKey]];
            && next.Keys == IdsOf(rows[..i + 1])
            && forall id :: id in next ==> next[id] == SlotsOf(rows[..i + 1], id)
  {
    var row := rows[i];
    assert rows[..i + 1][..i] == rows[..i] && rows[..i + 1][i] == row;
    assert IdsOf(rows[..i + 1]) == IdsOf(rows[..i]) + {row.interviewerId} by {
      assert rows[..i + 1] == rows[..i] + [row];
    }
    if row.interviewerId !in result {
      SlotsOfEmpty(rows[..i], row.interviewerId);
    }
  }

  /** Number of rows owned by each of `ids`, summed. */
  function CountAll(rows: seq<SlotRow>, ids: seq<string>): nat
  {
    if |ids| == 0 then 0 else |SlotsOf(rows, ids[0])| + CountAll(rows, ids[1..])
  }

  lemma {:induction false} CountAllStep(rows: seq<SlotRow>, row: SlotRow, ids: seq<string>)
    requires NoDuplicates(ids)
    ensures CountAll(rows + [row], ids) == CountAll(rows, ids) + (if row.interviewerId in ids then 1 else 0)
  {
    if |ids| > 0 {
      assert (rows + [row])[..|rows + [row]| - 1] == rows;
      assert NoDuplicates(ids[1..]) by {
        forall i, j | 0 <= i < j < |ids[1..]| ensures ids[1..][i] != ids[1..][j] {
          assert ids[1..][i] == ids[i + 1] && ids[1..][j] == ids[j + 1];
        }
      }
      CountAllStep(rows, row, ids[1..]);
      if ids[0] == row.interviewerId {
        forall k | 0 <= k < |ids[1..]| ensures ids[1..][k] != row.interviewerId {
          assert ids[1..][k] == ids[k + 1];
        }
      }
      assert row.interviewerId in ids <==> row.interviewerId == ids[0] || row.interviewerId in ids[1..];
    }
  }

  /**
   No row is lost or counted twice by the grouping: over any duplicate-free
   list of ids covering every interviewer in the table, the per-interviewer
   lists add up to the number of rows.
   */
  lemma {:induction false} GroupingTotal(rows: seq<SlotRow>, ids: seq<string>)
    requires NoDuplicates(ids)
    requires forall row :: row in rows ==> row.interviewerId in ids
    ensures CountAll(rows, ids) == |rows|
    decreases |rows|
  {
    if |rows| == 0 {
      CountAllEmpty(rows, ids);
    } else {
      var init := rows[..|rows| - 1];
      var last := rows[|rows| - 1];
      assert rows == init + [last];
      GroupingTotal(init, ids);
      CountAllStep(init, last, ids);
    }
  }

  lemma {:induction false} CountAllEmpty(rows: seq<SlotRow>, ids: seq<string>)
    requires |rows| == 0
    ensures CountAll(rows, ids) == 0
  {
    if |ids| > 0 {
      CountAllEmpty(rows, ids[1..]);
    }
  }

  /** The rows left after deleting every row of `id`. */
  function RowsNotOf(rows: seq<SlotRow>, id: string): (kept: seq<SlotRow>)
    ensures forall row :: row in kept <==> row in rows && row.interviewerId != id
  {
    if |rows| == 0 then []
    else
      var last := rows[|rows| - 1];
      var init := RowsNotOf(rows[..|rows| - 1], id);
      assert forall r :: r in rows <==> r in rows[..|rows| - 1] || r == last by {
        assert rows == rows[..|rows| - 1] + [last];
      }
      if last.interviewerId == id then init else init + [last]
  }

  /** The rows inserted for `id`, one per slot key. */
  function RowsFor(id: string, slotKeys: seq<string>): (rows: seq<SlotRow>)
    ensures |rows| == |slotKeys|
    ensures forall i :: 0 <= i < |rows| ==> rows[i] == SlotRow(id, slotKeys[i])
  {
    seq(|slotKeys|, i requires 0 <= i < |slotKeys| => SlotRow(id, slotKeys[i]))
  }

  lemma {:induction false} SlotsOfRowsNotOf(rows: seq<SlotRow>, id: string, other: string)
    ensures SlotsOf(RowsNotOf(rows, id), id) == []
    ensures other != id ==> SlotsOf(RowsNotOf(rows, id), other) == SlotsOf(rows, other)
  {
    if |rows| > 0 {
      var init := rows[..|rows| - 1];
      var last := rows[|rows| - 1];
      SlotsOfRowsNotOf(init, id, other);
      if last.interviewerId != id {
        var kept := RowsNotOf(init, id) + [last];
        assert kept[..|kept| - 1] == RowsNotOf(init, id);
      }
    }
  }

  lemma {:induction false} SlotsOfRowsFor(id: string, slotKeys: seq<string>, other: string)
    ensures SlotsOf(RowsFor(id, slotKeys), id) == slotKeys
    ensures other != id ==> SlotsOf(RowsFor(id, slotKeys), other) == []
    decreases |slotKeys|
  {
    if |slotKeys| > 0 {
      var init := slotKeys[..|slotKeys| - 1];
      SlotsOfRowsFor(id, init, other);
      var rows := RowsFor(id, slotKeys);
      assert rows[..|rows| - 1] == RowsFor(id, init);
      assert slotKeys == init + [slotKeys[|slotKeys| - 1]];
    }
  }

  /** What a call to `setInterviewerSlots` leaves behind. */
  datatype WriteOutcome = WriteOutcome(table: seq<SlotRow>, ok: bool, insertIssued: bool)

  /**
   `setInterviewerSlots`: delete all of `id`'s rows; stop there when the new
   list is empty; otherwise insert one row per slot key. A failed delete
   changes nothing; a failed insert leaves `id` with no rows, since the two
   steps are not one transaction.
   */
  function SetInterviewerSlots(
    table: seq<SlotRow>, id: string, slotKeys: seq<string>, deleteFails: bool, insertFails: bool)
    : (w: WriteOutcome)
    ensures w.ok ==> SlotsOf(w.table, id) == slotKeys
    ensures forall other :: other != id ==> SlotsOf(w.table, other) == SlotsOf(table, other)
    ensures deleteFails ==> !w.ok && !w.insertIssued && w.table == table
    ensures !deleteFails && !w.ok ==> SlotsOf(w.table, id) == []
    ensures |slotKeys| == 0 ==> !w.insertIssued
    ensures !deleteFails && |slotKeys| > 0 ==> w.insertIssued
    ensures w.ok <==> !deleteFails && (|slotKeys| == 0 || !insertFails)
  {
    if deleteFails then WriteOutcome(table, false, false)
    else
      var kept := RowsNotOf(table, id);
      SlotsOfRowsNotOfAll(table, id);
      if |slotKeys| == 0 then WriteOutcome(kept, true, false)
      else if insertFails then WriteOutcome(kept, false, true)
      else
        var added := RowsFor(id, slotKeys);
        SlotsOfAppendAll(kept, added);
        SlotsOfRowsForAll(id, slotKeys);
        WriteOutcome(kept + added, true, true)
  }

  lemma SlotsOfRowsNotOfAll(rows: seq<SlotRow>, id: string)
    ensures SlotsOf(RowsNotOf(rows, id), id) == []
    ensures forall other :: other != id ==> SlotsOf(RowsNotOf(rows, id), other) == SlotsOf(rows, other)
  {
    SlotsOfRowsNotOf(rows, id, id);
    forall other | other != id
      ensures SlotsOf(RowsNotOf(rows, id), other) == SlotsOf(rows, other)
    {
      SlotsOfRowsNotOf(rows, id, other);
    }
  }

  lemma SlotsOfAppendAll(front: seq<SlotRow>, back: seq<SlotRow>)
    ensures forall id :: SlotsOf(front + back, id) == SlotsOf(front, id) + SlotsOf(back, id)
  {
    forall id
      ensures SlotsOf(front + back, id) == SlotsOf(front, id) + SlotsOf(back, id)
    {
      SlotsOfAppend(front, back, id);
    }
  }

  lemma SlotsOfRowsForAll(id: string, slotKeys: seq<string>)
    ensures SlotsOf(RowsFor(id, slotKeys), id) == slotKeys
    ensures forall other :: other != id ==> SlotsOf(RowsFor(id, slotKeys), other) == []
  {
    SlotsOfRowsFor(id, slotKeys, id);
    forall other | other != id
      ensures SlotsOf(RowsFor(id, slotKeys), other) == []
    {
      SlotsOfRowsFor(id, slotKeys, other);
    }
  }

  /**
   Read-after-write: after a successful save the grouped view lists exactly
   the saved keys for `id` (no entry at all when they are empty), and every
   other interviewer's entry is as before.
   */
  lemma SavedSlotsAreRead(
    table: seq<SlotRow>, id: string, slotKeys: seq<string>, deleteFails: bool, insertFails: bool)
    requires SetInterviewerSlots(table, id, slotKeys, deleteFails, insertFails).ok
    ensures var after := Grouped(SetInterviewerSlots(table, id, slotKeys, deleteFails, insertFails).table);
            && (id in after <==> |slotKeys| > 0)
            && (id in after ==> after[id] == slotKeys)
            && forall other :: other != id ==>
                 (other in after <==> other in Grouped(table))
                 && (other in after ==> after[other] == Grouped(table)[other])
  {
    var w := SetInterviewerSlots(table, id, slotKeys, deleteFails, insertFails);
    SlotsOfEmpty(w.table, id);
    forall other | other != id
      ensures other in IdsOf(w.table) <==> other in IdsOf(table)
    {
      SlotsOfEmpty(w.table, other);
      SlotsOfEmpty(table, other);
    }
  }
}
