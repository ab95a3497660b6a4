/**
 How the pieces fit together: the grid as the booking page wires it, the
 store's booking transition feeding the page's blocked list, and the store's
 edit and save operations composed on a painted selection.
 */
module BookingFlow {
  import opened Common
  import Slots
  import Scheduler
  import SupabaseScheduler
  import SchedulerStore
  import SchedulePage
  import AvailabilityGrid

  /** The props the booking page passes to the grid. */
  function BookingGridProps(
    availability: map<string, seq<string>>, bookings: seq<Scheduler.InterviewBooking>,
    form: SchedulePage.BookingForm)
    : (props: AvailabilityGrid.GridProps)
    ensures props.mode == AvailabilityGrid.Booking && props.hasOnSelectSlot && !props.hasOnChangeSlots
    ensures props.selectableSlots == Some(SchedulePage.SharedSlots(availability, form.interviewerAId, form.interviewerBId))
    ensures props.blockedSlots == Some(SchedulePage.BlockedSlots(bookings, form.interviewerAId, form.interviewerBId))
  {
    var shared := SchedulePage.SharedSlots(availability, form.interviewerAId, form.interviewerBId);
    AvailabilityGrid.GridProps(
      shared, false, Some(shared),
      Some(SchedulePage.BlockedSlots(bookings, form.interviewerAId, form.interviewerBId)),
      Some(form.selectedSlotKey), true, AvailabilityGrid.Booking)
  }

  /**
   A cell of the booking grid can be picked exactly when both interviewers
   listed it and no booking of either takes it; once picked, with a candidate
   filled in, confirming issues the booking.
   */
  lemma PickedCellPassesChecks(
    availability: map<string, seq<string>>, bookings: seq<Scheduler.InterviewBooking>,
    form: SchedulePage.BookingForm, drag: AvailabilityGrid.DragState, day: string, time: string)
    requires !SchedulePage.IsBlank(form.candidateName) && !SchedulePage.IsBlank(form.candidateEmail)
    ensures var key := Slots.BuildSlotKey(day, time);
            var a := form.interviewerAId;
            var b := form.interviewerBId;
            var e := AvailabilityGrid.Click(BookingGridProps(availability, bookings, form), drag, key);
            && (e.selected.Some? <==>
                 a != b && key in SchedulePage.SlotsFor(availability, a) && key in SchedulePage.SlotsFor(availability, b)
                 && key !in Scheduler.BookedSlotsForPair(bookings, a, b))
            && (e.selected.Some? ==>
                 SchedulePage.BookSelectedSlot(form.(selectedSlotKey := key), bookings).submission.Issued?)
  {
    Slots.SlotKeyNonEmpty(day, time);
  }

  /** When the two interviewers are the same person, no cell of the booking grid can be picked. */
  lemma SelfPairingPicksNothing(
    availability: map<string, seq<string>>, bookings: seq<Scheduler.InterviewBooking>,
    form: SchedulePage.BookingForm, drag: AvailabilityGrid.DragState, key: string)
    requires form.interviewerAId == form.interviewerBId
    ensures AvailabilityGrid.Click(BookingGridProps(availability, bookings, form), drag, key).selected == None
  {
  }

  /**
   After a booking is created, its slot is blocked for every pair that
   includes either of its interviewers, and confirming that slot again for
   the same pair is refused.
   */
  lemma CreatedBookingBlocksSlot(
    s: SchedulerStore.SchedulerState, q: SchedulePage.BookingRequest,
    id: string, createdAt: string, err: SchedulerStore.Thrown,
    form: SchedulePage.BookingForm)
    requires !SchedulePage.IsBlank(form.candidateName) && !SchedulePage.IsBlank(form.candidateEmail)
    requires form.interviewerAId != form.interviewerBId
    requires form.interviewerAId in {q.interviewerAId, q.interviewerBId}
          || form.interviewerBId in {q.interviewerAId, q.interviewerBId}
    requires form.selectedSlotKey == q.slotKey && q.slotKey != ""
    ensures var t := SchedulerStore.BookCandidateSlot(s, q, false, id, createdAt, err);
            && q.slotKey in Scheduler.BookedSlotsForPair(t.bookings, form.interviewerAId, form.interviewerBId)
            && SchedulePage.BookSelectedSlot(form, t.bookings).submission
               == SchedulePage.Rejected(SchedulePage.SlotAlreadyBlocked)
  {
    var t := SchedulerStore.BookCandidateSlot(s, q, false, id, createdAt, err);
    assert t.bookings[0] in t.bookings;
    assert Scheduler.Involves(t.bookings[0], form.interviewerAId, form.interviewerBId);
  }

  /**
   The round trip of one booking through the page and the store: a request
   the page issues for a slot comes back from the store as a booking that
   blocks it, so pressing confirm again for that slot with a new candidate
   is refused.
   */
  lemma IssuedBookingIsNotRepeatable(
    s: SchedulerStore.SchedulerState, form: SchedulePage.BookingForm,
    id: string, createdAt: string, err: SchedulerStore.Thrown,
    name: string, email: string)
    requires SchedulePage.BookSelectedSlot(form, s.bookings).submission.Issued?
    requires !SchedulePage.IsBlank(name) && !SchedulePage.IsBlank(email)
    ensures var q := SchedulePage.BookSelectedSlot(form, s.bookings).submission.request;
            var t := SchedulerStore.BookCandidateSlot(s, q, false, id, createdAt, err);
            SchedulePage.BookSelectedSlot(form.(candidateName := name, candidateEmail := email), t.bookings).submission
            == SchedulePage.Rejected(SchedulePage.SlotAlreadyBlocked)
  {
    var q := SchedulePage.BookSelectedSlot(form, s.bookings).submission.request;
    CreatedBookingBlocksSlot(s, q, id, createdAt, err, form.(candidateName := name, candidateEmail := email));
  }

  /**
   A composition of store operations: the list the grid reports, stored in
   memory for the current interviewer by `setInterviewerSlots` and then
   written by `saveAvailability`, is exactly what the table holds for that
   interviewer when the save goes through. No page calls `saveAvailability`;
   the availability page only makes the in-memory edit.
   */
  lemma PaintedSelectionIsSaved(
    s: SchedulerStore.SchedulerState, props: AvailabilityGrid.GridProps, key: string,
    mode: AvailabilityGrid.DragMode, table: seq<SupabaseScheduler.SlotRow>,
    deleteFails: bool, insertFails: bool, err: SchedulerStore.Thrown)
    requires props.hasOnChangeSlots
    ensures var painted := AvailabilityGrid.UpdateSlot(props, key, mode).value;
            var edited := SchedulerStore.SetInterviewerSlots(s, s.currentInterviewerId, painted);
            var run := SchedulerStore.SaveAvailability(edited, table, s.currentInterviewerId, deleteFails, insertFails, err);
            run.finished.availabilitySaveStatus == SchedulerStore.Saved ==>
              SupabaseScheduler.SlotsOf(run.table, s.currentInterviewerId) == painted
  {
  }
}
