/**
 The client-side store: one state record and the transitions the provider
 applies to it. Each React `setState((s) => ...)` update is a function from
 the old state to the new one; the result of the awaited database call that
 precedes it (a row, a thrown value, a failed write) is a parameter.
 */
module SchedulerStore {
  import opened Common
  import Scheduler
  import SupabaseScheduler
  import SchedulePage

  datatype SaveStatus = Idle | Saving | Saved

  datatype SchedulerState = SchedulerState(
    interviewers: seq<SupabaseScheduler.Interviewer>,
    currentInterviewerId: string,
    availabilityByInterviewer: map<string, seq<string>>,
    bookings: seq<Scheduler.InterviewBooking>,
    isLoading: bool,
    error: Option<string>,
    availabilitySaveStatus: SaveStatus)

  const FallbackInterviewerId: string := "i-ava"

  /** `emptyState`: the state before the first load completes. */
  const EmptyState: SchedulerState :=
    SchedulerState([], FallbackInterviewerId, map[], [], true, None, Idle)

  // ---------------------------------------------------------------------
  // Thrown values and their messages
  // ---------------------------------------------------------------------

  /** A thrown value: an `Error` (which always has a message) or any other value, with or without a `message`. */
  datatype Thrown = ErrorObject(message: string) | OtherValue(messageField: Option<string>)

  /**
   `err?.message ?? (err instanceof Error ? err.message : null) ?? fallback`.
   The middle alternative reads the same property as the first, so it never
   supplies a message the first did not.
   */
  function MessageOr(err: Thrown, fallback: string): (msg: string)
    ensures err.ErrorObject? ==> msg == err.message
    ensures err.OtherValue? && err.messageField.Some? ==> msg == err.messageField.value
    ensures err.OtherValue? && err.messageField.None? ==> msg == fallback
  {
    match err
    case ErrorObject(m) => m
    case OtherValue(Some(m)) => m
    case OtherValue(None) => fallback
  }

  /** `err instanceof Error ? err.message : fallback`, used by the initial load. */
  function ErrorMessageOr(err: Thrown, fallback: string): (msg: string)
    ensures err.ErrorObject? ==> msg == err.message
    ensures err.OtherValue? ==> msg == fallback
  {
    match err
    case ErrorObject(m) => m
    case OtherValue(_) => fallback
  }

  /**
   The two readings differ only on a value that is not an `Error` but carries
   a `message`: the save and booking paths show it, the load path does not.
   */
  lemma MessageReadingsDiffer(err: Thrown, fallback: string)
    ensures MessageOr(err, fallback) != ErrorMessageOr(err, fallback) ==>
      err.OtherValue? && err.messageField.Some? && err.messageField.value != fallback
    ensures err.OtherValue? && err.messageField.Some? && err.messageField.value != fallback ==>
      MessageOr(err, fallback) != ErrorMessageOr(err, fallback)
  {
  }

  // ---------------------------------------------------------------------
  // Row mapping
  // ---------------------------------------------------------------------

  /** `value ?? null` for an optional column. */
  function NullToNone(v: SupabaseScheduler.Nullable): (r: Option<string>)
    ensures r.Some? <==> v.Present?
    ensures r.Some? ==> r.value == v.value
  {
    match v
    case Present(x) => Some(x)
    case _ => None
  }

  /** `mapToInterviewBooking`: each column to its camelCase field; a missing preference becomes `null`. */
  function MapToInterviewBooking(b: SupabaseScheduler.SchedulerBooking): (r: Scheduler.InterviewBooking)
    ensures r.id == b.id && r.candidateName == b.candidateName && r.candidateEmail == b.candidateEmail
    ensures r.interviewerAId == b.interviewerAId && r.interviewerBId == b.interviewerBId
    ensures r.slotKey == b.slotKey && r.createdAt == b.createdAt
    ensures r.firstPreference == NullToNone(b.firstPreference)
    ensures r.secondPreference == NullToNone(b.secondPreference)
    ensures r.firstPreference.Some? <==> b.firstPreference.Present?
    ensures r.secondPreference.Some? <==> b.secondPreference.Present?
  {
    Scheduler.InterviewBooking(
      b.id, b.candidateName, b.candidateEmail, b.interviewerAId, b.interviewerBId,
      b.slotKey, b.createdAt, NullToNone(b.firstPreference), NullToNone(b.secondPreference))
  }

  /** `bookings.map(mapToInterviewBooking)`. */
  function MapBookings(rows: seq<SupabaseScheduler.SchedulerBooking>): (bookings: seq<Scheduler.InterviewBooking>)
    ensures |bookings| == |rows|
    ensures forall i :: 0 <= i < |rows| ==> bookings[i] == MapToInterviewBooking(rows[i])
  {
    seq(|rows|, i requires 0 <= i < |rows| => MapToInterviewBooking(rows[i]))
  }

  /**
   The two copies of `getBookedSlotsForPair` agree: the camelCase one over the
   mapped bookings gives what the snake_case one gives over the rows.
   */
  lemma {:induction false} BookedSlotsAgree(rows: seq<SupabaseScheduler.SchedulerBooking>, aId: string, bId: string)
    ensures Scheduler.BookedSlotsForPair(MapBookings(rows), aId, bId)
         == SupabaseScheduler.BookedSlotsForPair(rows, aId, bId)
  {
    if |rows| > 0 {
      assert MapBookings(rows)[1..] == MapBookings(rows[1..]);
      BookedSlotsAgree(rows[1..], aId, bId);
    }
  }

  // ---------------------------------------------------------------------
  // Loading
  // ---------------------------------------------------------------------

  /**
   The current interviewer after a load: the stored id when it is non-empty
   and names a listed interviewer; otherwise the first listed interviewer,
   or "i-ava" when the list is empty.
   */
  function ResolveCurrentInterviewer(stored: Option<string>, interviewers: seq<SupabaseScheduler.Interviewer>)
    : (id: string)
    ensures stored.Some? && stored.value != "" && (exists iv :: iv in interviewers && iv.id == stored.value)
      ==> id == stored.value
    ensures !(stored.Some? && stored.value != "" && (exists iv :: iv in interviewers && iv.id == stored.value))
      ==> id == (if |interviewers| > 0 then interviewers[0].id else FallbackInterviewerId)
    ensures |interviewers| > 0 ==> exists iv :: iv in interviewers && iv.id == id
  {
    if stored.Some? && stored.value != "" && (exists iv :: iv in interviewers && iv.id == stored.value) then
      stored.value
    else if |interviewers| > 0 then
      assert interviewers[0] in interviewers;
      interviewers[0].id
    else
      FallbackInterviewerId
  }

  /** The state set when the initial load succeeds. */
  function Loaded(
    interviewers: seq<SupabaseScheduler.Interviewer>,
    availability: map<string, seq<string>>,
    rows: seq<SupabaseScheduler.SchedulerBooking>,
    stored: Option<string>)
    : (s: SchedulerState)
    ensures s.interviewers == interviewers && s.availabilityByInterviewer == availability
    ensures s.bookings == MapBookings(rows)
    ensures !s.isLoading && s.error == None && s.availabilitySaveStatus == Idle
    ensures s.currentInterviewerId == ResolveCurrentInterviewer(stored, interviewers)
  {
    SchedulerState(
      interviewers, ResolveCurrentInterviewer(stored, interviewers), availability,
      MapBookings(rows), false, None, Idle)
  }

  /**
   The initial load as the provider runs it on mount, with `previous` the id
   stored under the current-interviewer key before the page opened. Both
   mount effects run in one flush: the load suspends at its first `await`,
   then the effect that stores `currentInterviewerId` writes the initial
   "i-ava" under that key, and only afterwards does the load read it. So
   the earlier choice is overwritten before it is read.
   */
  function LoadOnMount(
    previous: Option<string>,
    interviewers: seq<SupabaseScheduler.Interviewer>,
    availability: map<string, seq<string>>,
    rows: seq<SupabaseScheduler.SchedulerBooking>)
    : (s: SchedulerState)
    ensures (exists iv :: iv in interviewers && iv.id == FallbackInterviewerId)
      ==> s.currentInterviewerId == FallbackInterviewerId
    ensures !(exists iv :: iv in interviewers && iv.id == FallbackInterviewerId)
      ==> s.currentInterviewerId == (if |interviewers| > 0 then interviewers[0].id else FallbackInterviewerId)
    ensures s.interviewers == interviewers && s.bookings == MapBookings(rows)
  {
    var storedAtLoad := Some(EmptyState.currentInterviewerId);
    Loaded(interviewers, availability, rows, storedAtLoad)
  }

  /**
   A concrete run: "i-liam" was chosen last time and is still listed, yet
   the mount load picks "i-ava", while reading the key before it is
   overwritten restores "i-liam".
   */
  lemma MountForgetsChoice()
    ensures var ivs := [SupabaseScheduler.Interviewer("i-ava", "Ava Shah"),
                        SupabaseScheduler.Interviewer("i-liam", "Liam Chen")];
            && LoadOnMount(Some("i-liam"), ivs, map[], []).currentInterviewerId == "i-ava"
            && Loaded(ivs, map[], [], Some("i-liam")).currentInterviewerId == "i-liam"
  {
    var ivs := [SupabaseScheduler.Interviewer("i-ava", "Ava Shah"),
                SupabaseScheduler.Interviewer("i-liam", "Liam Chen")];
    assert ivs[0] in ivs && ivs[1] in ivs;
  }

  /** Read before it is overwritten, a stored choice that is still listed survives the load. */
  lemma LoadRestoresChoice(
    previous: string,
    interviewers: seq<SupabaseScheduler.Interviewer>,
    availability: map<string, seq<string>>,
    rows: seq<SupabaseScheduler.SchedulerBooking>)
    requires previous != ""
    requires exists iv :: iv in interviewers && iv.id == previous
    ensures Loaded(interviewers, availability, rows, Some(previous)).currentInterviewerId == previous
  {
  }

  /** The fallback messages of the load, the save and the booking paths. */
  const LoadFailedMessage: string := "Failed to load scheduler data"
  const SaveFailedMessage: string := "Failed to save availability"
  const BookingFailedMessage: string := "Failed to create booking"

  /**
   The state set when the initial load throws: loading ends with the `Error`'s
   message (any other thrown value gives the fallback), nothing else changes.
   */
  function LoadFailed(s: SchedulerState, err: Thrown): (t: SchedulerState)
    ensures !t.isLoading && t.error.Some?
    ensures err.ErrorObject? ==> t.error == Some(err.message)
    ensures err.OtherValue? ==> t.error == Some(LoadFailedMessage)
    ensures t == s.(isLoading := false, error := t.error)
  {
    s.(isLoading := false, error := Some(ErrorMessageOr(err, LoadFailedMessage)))
  }

  // ---------------------------------------------------------------------
  // Availability edits and saves
  // ---------------------------------------------------------------------

  /** `setCurrentInterviewer`: switch interviewer and reset the save status. */
  function SetCurrentInterviewer(s: SchedulerState, id: string): (t: SchedulerState)
    ensures t.currentInterviewerId == id && t.availabilitySaveStatus == Idle
    ensures t.(currentInterviewerId := s.currentInterviewerId, availabilitySaveStatus := s.availabilitySaveStatus) == s
  {
    s.(currentInterviewerId := id, availabilitySaveStatus := Idle)
  }

  /** `setInterviewerSlots`: replace one interviewer's list in memory and reset the save status. */
  function SetInterviewerSlots(s: SchedulerState, id: string, slots: seq<string>): (t: SchedulerState)
    ensures id in t.availabilityByInterviewer && t.availabilityByInterviewer[id] == slots
    ensures t.availabilityByInterviewer.Keys == s.availabilityByInterviewer.Keys + {id}
    ensures forall other :: other != id && other in s.availabilityByInterviewer ==>
      t.availabilityByInterviewer[other] == s.availabilityByInterviewer[other]
    ensures t.bookings == s.bookings && t.availabilitySaveStatus == Idle
    ensures t.(availabilityByInterviewer := s.availabilityByInterviewer,
               availabilitySaveStatus := s.availabilitySaveStatus) == s
  {
    s.(availabilityByInterviewer := s.availabilityByInterviewer[id := slots], availabilitySaveStatus := Idle)
  }

  /** First update of `saveAvailability`: saving, no error. */
  function SaveStarted(s: SchedulerState): (t: SchedulerState)
    ensures t.availabilitySaveStatus == Saving && t.error == None
    ensures t.(availabilitySaveStatus := s.availabilitySaveStatus, error := s.error) == s
  {
    s.(availabilitySaveStatus := Saving, error := None)
  }

  /** The write went through: saved, no error. */
  function SaveSucceeded(s: SchedulerState): (t: SchedulerState)
    ensures t.availabilitySaveStatus == Saved && t.error == None
    ensures t.(availabilitySaveStatus := s.availabilitySaveStatus, error := s.error) == s
  {
    s.(availabilitySaveStatus := Saved, error := None)
  }

  /** The two-second timer after a successful save: back to idle, the error untouched. */
  function SaveTimerElapsed(s: SchedulerState): (t: SchedulerState)
    ensures t.availabilitySaveStatus == Idle
    ensures t.(availabilitySaveStatus := s.availabilitySaveStatus) == s
  {
    s.(availabilitySaveStatus := Idle)
  }

  /** The write threw: idle again, with the thrown value's message or the save fallback. */
  function SaveFailed(s: SchedulerState, err: Thrown): (t: SchedulerState)
    ensures t.availabilitySaveStatus == Idle && t.error.Some?
    ensures t.error == Some(MessageOr(err, SaveFailedMessage))
    ensures err.OtherValue? && err.messageField.None? ==> t.error == Some(SaveFailedMessage)
    ensures t.(availabilitySaveStatus := s.availabilitySaveStatus, error := s.error) == s
  {
    s.(availabilitySaveStatus := Idle, error := Some(MessageOr(err, SaveFailedMessage)))
  }

  /** The states one save passes through, and the table it leaves behind. */
  datatype SaveRun = SaveRun(started: SchedulerState, finished: SchedulerState, table: seq<SupabaseScheduler.SlotRow>)

  /**
   `saveAvailability(id)`: persist the in-memory list of `id` (empty when it
   has none) with the delete-then-insert write, then record the outcome.
   `err` is what the failed write throws.
   */
  function SaveAvailability(
    s: SchedulerState, table: seq<SupabaseScheduler.SlotRow>, id: string,
    deleteFails: bool, insertFails: bool, err: Thrown)
    : (run: SaveRun)
    ensures run.started.availabilitySaveStatus == Saving && run.started.error == None
    ensures run.finished.availabilitySaveStatus == Saved ==>
      (run.finished.error == None
       && SupabaseScheduler.SlotsOf(run.table, id) == SchedulePage.SlotsFor(s.availabilityByInterviewer, id))
    ensures run.finished.availabilitySaveStatus != Saved ==>
      run.finished.availabilitySaveStatus == Idle && run.finished.error == Some(MessageOr(err, SaveFailedMessage))
    ensures run.finished.availabilitySaveStatus == Saved
      <==> !deleteFails && (SchedulePage.SlotsFor(s.availabilityByInterviewer, id) == [] || !insertFails)
    ensures forall other :: other != id ==>
      SupabaseScheduler.SlotsOf(run.table, other) == SupabaseScheduler.SlotsOf(table, other)
    ensures run.finished.availabilityByInterviewer == s.availabilityByInterviewer
      && run.finished.bookings == s.bookings
    ensures run.finished.(availabilitySaveStatus := s.availabilitySaveStatus, error := s.error) == s
  {
    var slots := SchedulePage.SlotsFor(s.availabilityByInterviewer, id);
    var started := SaveStarted(s);
    var w := SupabaseScheduler.SetInterviewerSlots(table, id, slots, deleteFails, insertFails);
    SaveRun(started, if w.ok then SaveSucceeded(started) else SaveFailed(started, err), w.table)
  }

  // ---------------------------------------------------------------------
  // Bookings
  // ---------------------------------------------------------------------

  /** `value ?? null` for a preference passed on to `createBooking`. */
  function NoneToNull(p: Option<string>): (v: SupabaseScheduler.Nullable)
    ensures v != SupabaseScheduler.Absent
    ensures NullToNone(v) == p
  {
    match p
    case Some(x) => SupabaseScheduler.Present(x)
    case None => SupabaseScheduler.Null
  }

  /** The insert `bookCandidateSlot` sends for a request. */
  function CreateInput(q: SchedulePage.BookingRequest): (input: SupabaseScheduler.CreateBookingInput)
    ensures input.slotKey == q.slotKey
    ensures input.interviewerAId == q.interviewerAId && input.interviewerBId == q.interviewerBId
    ensures input.candidateName == q.candidateName && input.candidateEmail == q.candidateEmail
    ensures NullToNone(input.firstPreference) == q.firstPreference
    ensures NullToNone(input.secondPreference) == q.secondPreference
  {
    SupabaseScheduler.CreateBookingInput(
      q.candidateName, q.candidateEmail, q.interviewerAId, q.interviewerBId, q.slotKey,
      NoneToNull(q.firstPreference), NoneToNull(q.secondPreference))
  }

  /** The insert returned a row: it goes first, earlier bookings keep their order, the error clears. */
  function BookingCreated(s: SchedulerState, row: SupabaseScheduler.SchedulerBooking): (t: SchedulerState)
    ensures |t.bookings| == |s.bookings| + 1
    ensures t.bookings[0] == MapToInterviewBooking(row) && t.bookings[1..] == s.bookings
    ensures t.error == None
    ensures t.(bookings := s.bookings, error := s.error) == s
  {
    s.(bookings := [MapToInterviewBooking(row)] + s.bookings, error := None)
  }

  /** The insert threw: bookings stay as they were and the error holds a message. */
  function BookingFailed(s: SchedulerState, err: Thrown): (t: SchedulerState)
    ensures t.error.Some? && t.bookings == s.bookings
    ensures t.error == Some(MessageOr(err, BookingFailedMessage))
    ensures err.OtherValue? && err.messageField.None? ==> t.error == Some(BookingFailedMessage)
    ensures t.(error := s.error) == s
  {
    s.(error := Some(MessageOr(err, BookingFailedMessage)))
  }

  /**
   A thrown value that is not an `Error` but carries a message is shown by a
   failed save and by a failed booking, while a failed load shows the load
   fallback instead.
   */
  lemma ThrownMessageShownExceptOnLoad(s: SchedulerState, err: Thrown)
    requires err.OtherValue? && err.messageField.Some?
    ensures SaveFailed(s, err).error == Some(err.messageField.value)
    ensures BookingFailed(s, err).error == Some(err.messageField.value)
    ensures LoadFailed(s, err).error == Some(LoadFailedMessage)
  {
  }

  /** `clearError`. */
  function ClearError(s: SchedulerState): (t: SchedulerState)
    ensures t.error == None
    ensures t.(error := s.error) == s
  {
    s.(error := None)
  }

  /**
   `bookCandidateSlot` end to end: the insert either returns the row the
   database made from the request (with its generated id and timestamp) or
   throws `err`.
   */
  function BookCandidateSlot(
    s: SchedulerState, q: SchedulePage.BookingRequest,
    insertFails: bool, id: string, createdAt: string, err: Thrown)
    : (t: SchedulerState)
    ensures insertFails ==> t.bookings == s.bookings && t.error == Some(MessageOr(err, BookingFailedMessage))
    ensures !insertFails ==>
      (&& |t.bookings| == |s.bookings| + 1 && t.bookings[1..] == s.bookings
       && t.bookings[0].slotKey == q.slotKey
       && t.bookings[0].interviewerAId == q.interviewerAId && t.bookings[0].interviewerBId == q.interviewerBId
       && t.bookings[0].candidateName == q.candidateName && t.bookings[0].candidateEmail == q.candidateEmail
       && t.bookings[0].firstPreference == q.firstPreference
       && t.bookings[0].secondPreference == q.secondPreference
       && t.error == None)
  {
    if insertFails then BookingFailed(s, err)
    else BookingCreated(s, SupabaseScheduler.InsertedBooking(CreateInput(q), id, createdAt))
  }

  // ---------------------------------------------------------------------
  // One-time migration from the legacy local snapshot
  // ---------------------------------------------------------------------

  datatype LegacyBooking = LegacyBooking(
    candidateName: string,
    candidateEmail: string,
    interviewerAId: string,
    interviewerBId: string,
    slotKey: string)

  /** The parsed legacy snapshot; the availability entries are in `Object.entries` order. */
  datatype LegacySnapshot = LegacySnapshot(
    availabilityByInterviewer: Option<seq<(string, seq<string>)>>,
    bookings: Option<seq<LegacyBooking>>)

  /** A database call the migration issues. */
  datatype StoreCall =
    | PersistSlots(interviewerId: string, slots: seq<string>)
    | CreateBooking(input: SupabaseScheduler.CreateBookingInput)

  /** One save per entry, empty or not, in entry order. */
  function PersistEach(entries: seq<(string, seq<string>)>): (calls: seq<StoreCall>)
    ensures |calls| == |entries|
    ensures forall i :: 0 <= i < |entries| ==> calls[i] == PersistSlots(entries[i].0, entries[i].1)
  {
    seq(|entries|, i requires 0 <= i < |entries| => PersistSlots(entries[i].0, entries[i].1))
  }

  /** How many entries hold at least one slot. */
  ghost function NonEmptyEntries(entries: seq<(string, seq<string>)>): nat
  {
    if |entries| == 0 then 0
    else (if |entries[0].1| > 0 then 1 else 0) + NonEmptyEntries(entries[1..])
  }

  /**
   The entries worth saving: one save per entry with at least one slot, in
   entry order.
   */
  function AvailabilityCalls(entries: seq<(string, seq<string>)>): (calls: seq<StoreCall>)
    ensures |calls| == NonEmptyEntries(entries) <= |entries|
    ensures forall c :: c in calls <==>
      exists e :: e in entries && |e.1| > 0 && c == PersistSlots(e.0, e.1)
    ensures forall i :: 0 <= i < |calls| ==> calls[i].PersistSlots?
    ensures IsSubsequence(calls, PersistEach(entries))
  {
    if |entries| == 0 then []
    else
      var rest := AvailabilityCalls(entries[1..]);
      assert forall e :: e in entries <==> e == entries[0] || e in entries[1..];
      assert PersistEach(entries)[1..] == PersistEach(entries[1..]);
      if |entries[0].1| > 0 then
        var saved := [PersistSlots(entries[0].0, entries[0].1)] + rest;
        assert saved[1..] == rest;
        saved
      else rest
  }

  function LegacyInput(b: LegacyBooking): (input: SupabaseScheduler.CreateBookingInput)
    ensures input.candidateName == b.candidateName && input.candidateEmail == b.candidateEmail
    ensures input.interviewerAId == b.interviewerAId && input.interviewerBId == b.interviewerBId
    ensures input.slotKey == b.slotKey
    ensures input.firstPreference == SupabaseScheduler.Absent && input.secondPreference == SupabaseScheduler.Absent
  {
    SupabaseScheduler.CreateBookingInput(
      b.candidateName, b.candidateEmail, b.interviewerAId, b.interviewerBId, b.slotKey,
      SupabaseScheduler.Absent, SupabaseScheduler.Absent)
  }

  /** One insert per legacy booking, in order, without preferences. */
  function BookingCalls(bookings: seq<LegacyBooking>): (calls: seq<StoreCall>)
    ensures |calls| == |bookings|
    ensures forall i :: 0 <= i < |bookings| ==> calls[i] == CreateBooking(LegacyInput(bookings[i]))
  {
    seq(|bookings|, i requires 0 <= i < |bookings| => CreateBooking(LegacyInput(bookings[i])))
  }

  /** How many saves the migration plans: one per legacy entry that holds a slot. */
  ghost function PlannedSaves(snapshot: LegacySnapshot): nat
  {
    if snapshot.availabilityByInterviewer.Some? then NonEmptyEntries(snapshot.availabilityByInterviewer.value) else 0
  }

  /**
   Every call the migration makes when nothing throws, in order: the saves
   for the non-empty entries, then one insert per legacy booking.
   */
  function MigrationCalls(snapshot: LegacySnapshot): (calls: seq<StoreCall>)
    ensures |calls| == PlannedSaves(snapshot) + (if snapshot.bookings.Some? then |snapshot.bookings.value| else 0)
    // the saves come first: exactly the entries that hold a slot, in entry order
    ensures forall c :: c in calls[..PlannedSaves(snapshot)] <==>
      && snapshot.availabilityByInterviewer.Some?
      && exists e :: e in snapshot.availabilityByInterviewer.value && |e.1| > 0 && c == PersistSlots(e.0, e.1)
    ensures snapshot.availabilityByInterviewer.Some? ==>
      IsSubsequence(calls[..PlannedSaves(snapshot)], PersistEach(snapshot.availabilityByInterviewer.value))
    // then one insert per legacy booking, in booking order
    ensures snapshot.bookings.Some? ==>
      forall i :: 0 <= i < |snapshot.bookings.value| ==>
        calls[PlannedSaves(snapshot) + i] == CreateBooking(LegacyInput(snapshot.bookings.value[i]))
    ensures forall i, j :: 0 <= i < j < |calls| && calls[j].PersistSlots? ==> calls[i].PersistSlots?
  {
    var saves := if snapshot.availabilityByInterviewer.Some? then AvailabilityCalls(snapshot.availabilityByInterviewer.value) else [];
    var inserts := if snapshot.bookings.Some? then BookingCalls(snapshot.bookings.value) else [];
    assert (saves + inserts)[..|saves|] == saves;
    assert forall i :: 0 <= i < |saves| ==> saves[i].PersistSlots?;
    assert forall i :: 0 <= i < |inserts| ==> inserts[i].CreateBooking?;
    saves + inserts
  }

  /** What `migrateFromLocalStorage` returns, whether it removed the legacy key, and the calls it made. */
  datatype MigrationRun = MigrationRun(result: bool, legacyKeyRemoved: bool, calls: seq<StoreCall>)

  /**
   `migrateFromLocalStorage`. `raw` is the stored text (`None` for a missing
   key), `parsed` what `JSON.parse` made of it (`None` when it throws or the
   value cannot be read as a snapshot), and `failingCall` the position of the
   first database call that throws, if any.
   */
  function Migrate(hasWindow: bool, raw: Option<string>, parsed: Option<LegacySnapshot>, failingCall: Option<nat>)
    : (run: MigrationRun)
    // the key is removed exactly when the function reports success
    ensures run.legacyKeyRemoved == run.result
    // success means every planned call went through and there was at least one
    ensures run.result <==>
      && hasWindow && raw.Some? && raw.value != "" && parsed.Some?
      && |MigrationCalls(parsed.value)| > 0
      && (failingCall.None? || failingCall.value >= |MigrationCalls(parsed.value)|)
    // calls stop at the one that throws
    ensures hasWindow && raw.Some? && raw.value != "" && parsed.Some?
      && failingCall.Some? && failingCall.value < |MigrationCalls(parsed.value)|
      ==> run.calls == MigrationCalls(parsed.value)[..failingCall.value + 1]
    // when nothing throws, every planned call is made, in order
    ensures hasWindow && raw.Some? && raw.value != "" && parsed.Some?
      && (failingCall.None? || failingCall.value >= |MigrationCalls(parsed.value)|)
      ==> run.calls == MigrationCalls(parsed.value)
    // text that does not parse leads to no call
    ensures parsed.None? ==> run.calls == [] && !run.result
    // with no legacy text there is nothing to do
    ensures !hasWindow || raw.None? || raw == Some("") ==> run.calls == []
  {
    if !hasWindow then MigrationRun(false, false, [])
    else if raw.None? || raw.value == "" then MigrationRun(false, false, [])
    else if parsed.None? then MigrationRun(false, false, [])
    else
      var plan := MigrationCalls(parsed.value);
      if failingCall.Some? && failingCall.value < |plan| then
        MigrationRun(false, false, plan[..failingCall.value + 1])
      else
        MigrationRun(|plan| > 0, |plan| > 0, plan)
  }

  /**
   The decision rule in terms of the snapshot: a migration that runs to the
   end succeeds exactly when some interviewer had slots or some booking was
   recorded, and it never saves an empty list.
   */
  lemma MigrationDecision(snapshot: LegacySnapshot)
    ensures |MigrationCalls(snapshot)| > 0 <==>
      (snapshot.availabilityByInterviewer.Some?
        && exists e :: e in snapshot.availabilityByInterviewer.value && |e.1| > 0)
      || (snapshot.bookings.Some? && |snapshot.bookings.value| > 0)
    ensures forall c :: c in MigrationCalls(snapshot) && c.PersistSlots? ==> |c.slots| > 0
  {
    var calls := MigrationCalls(snapshot);
    var k := PlannedSaves(snapshot);
    if snapshot.availabilityByInterviewer.Some? && exists e :: e in snapshot.availabilityByInterviewer.value && |e.1| > 0 {
      var e :| e in snapshot.availabilityByInterviewer.value && |e.1| > 0;
      assert PersistSlots(e.0, e.1) in calls[..k];
    }
    if snapshot.bookings.Some? && |snapshot.bookings.value| > 0 {
      assert calls[k + 0] == CreateBooking(LegacyInput(snapshot.bookings.value[0]));
    }
    if 0 < k {
      assert calls[..k][0] in calls[..k];
    }
    forall c | c in calls && c.PersistSlots?
      ensures |c.slots| > 0
    {
      var i :| 0 <= i < |calls| && calls[i] == c;
      if i < k {
        assert c in calls[..k];
      }
    }
  }
}
