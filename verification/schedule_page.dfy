/**
 The booking page's logic: the shared and blocked lists it derives for the
 chosen pair of interviewers, and the ordered chain of checks run when the
 user confirms a booking. Rendering and React state plumbing are not
 modelled; the page's form fields are one record.
 */
module SchedulePage {
  import opened Common
  import Scheduler

  // ---------------------------------------------------------------------
  // `String.prototype.trim`
  // ---------------------------------------------------------------------

  /** ECMAScript WhiteSpace and LineTerminator code points, the ones `trim` strips. */
  predicate IsWhitespace(c: char)
  {
    || c == '\t' || c == '\U{000B}' || c == '\U{000C}' || c == ' ' || c == '\U{00A0}'
    || c == '\U{1680}' || ('\U{2000}' <= c <= '\U{200A}') || c == '\U{202F}' || c == '\U{205F}'
    || c == '\U{3000}' || c == '\U{FEFF}'
    || c == '\n' || c == '\r' || c == '\U{2028}' || c == '\U{2029}'
  }

  /** The first index at or after `lo` that does not hold whitespace, or `|s|`. */
  function TrimStartIndex(s: string, lo: nat): (start: nat)
    requires lo <= |s|
    ensures lo <= start <= |s|
    ensures forall i :: lo <= i < start ==> IsWhitespace(s[i])
    ensures start < |s| ==> !IsWhitespace(s[start])
    decreases |s| - lo
  {
    if lo == |s| || !IsWhitespace(s[lo]) then lo else TrimStartIndex(s, lo + 1)
  }

  /** The end of `s[lo..hi]` once its trailing whitespace is dropped. */
  function TrimEndIndex(s: string, lo: nat, hi: nat): (end: nat)
    requires lo <= hi <= |s|
    ensures lo <= end <= hi
    ensures forall i :: end <= i < hi ==> IsWhitespace(s[i])
    ensures end > lo ==> !IsWhitespace(s[end - 1])
    decreases hi
  {
    if hi == lo || !IsWhitespace(s[hi - 1]) then hi else TrimEndIndex(s, lo, hi - 1)
  }

  /** `s.trim()`: `s` without its leading and trailing whitespace. */
  function Trim(s: string): (r: string)
    ensures var start := TrimStartIndex(s, 0);
            && start + |r| <= |s|
            && r == s[start..start + |r|]
            && (forall i :: 0 <= i < start ==> IsWhitespace(s[i]))
            && (forall i :: start + |r| <= i < |s| ==> IsWhitespace(s[i]))
    ensures r == "" <==> forall i :: 0 <= i < |s| ==> IsWhitespace(s[i])
    ensures |r| > 0 ==> !IsWhitespace(r[0]) && !IsWhitespace(r[|r| - 1])
  {
    var start := TrimStartIndex(s, 0);
    var end := TrimEndIndex(s, start, |s|);
    TrimmedSlice(s, start, end);
    s[start..end]
  }

  /**
   Cutting `s` after its leading whitespace and before a run of trailing
   whitespace leaves nothing exactly when `s` is all whitespace, and
   otherwise leaves text that starts and ends with something else.
   */
  lemma TrimmedSlice(s: string, start: nat, end: nat)
    requires start <= end <= |s|
    requires forall i :: 0 <= i < start ==> IsWhitespace(s[i])
    requires start < |s| ==> !IsWhitespace(s[start])
    requires forall i :: end <= i < |s| ==> IsWhitespace(s[i])
    requires end > start ==> !IsWhitespace(s[end - 1])
    ensures s[start..end] == "" <==> forall i :: 0 <= i < |s| ==> IsWhitespace(s[i])
    ensures |s[start..end]| > 0 ==> !IsWhitespace(s[start..end][0]) && !IsWhitespace(s[start..end][end - start - 1])
  {
    if start < end {
      assert !IsWhitespace(s[start]);
    }
  }

  /** `!s.trim()`: nothing but whitespace (or nothing at all). */
  function IsBlank(s: string): (b: bool)
    ensures b <==> forall i :: 0 <= i < |s| ==> IsWhitespace(s[i])
  {
    Trim(s) == ""
  }

  // ---------------------------------------------------------------------
  // Derived lists
  // ---------------------------------------------------------------------

  /** `availabilityByInterviewer[id] ?? []`. */
  function SlotsFor(availability: map<string, seq<string>>, id: string): (slots: seq<string>)
    ensures id !in availability ==> slots == []
    ensures id in availability ==> slots == availability[id]
  {
    if id in availability then availability[id] else []
  }

  /** The `blockedSlots` memo: nothing for a self-pairing, else the pair's booked slots. */
  function BlockedSlots(bookings: seq<Scheduler.InterviewBooking>, aId: string, bId: string): (blocked: seq<string>)
    ensures aId == bId ==> blocked == []
    ensures aId != bId ==> forall s :: s in blocked <==>
      exists b :: b in bookings && Scheduler.Involves(b, aId, bId) && b.slotKey == s
    ensures aId != bId ==> forall s :: multiset(blocked)[s] == Scheduler.InvolvedAt(bookings, aId, bId, s)
  {
    if aId == bId then [] else Scheduler.BookedSlotsForPair(bookings, aId, bId)
  }

  /** The `sharedSlots` memo: nothing for a self-pairing, else the overlap of the two lists. */
  function SharedSlots(availability: map<string, seq<string>>, aId: string, bId: string): (shared: seq<string>)
    ensures aId == bId ==> shared == []
    ensures aId != bId ==> forall s :: s in shared <==>
      s in SlotsFor(availability, aId) && s in SlotsFor(availability, bId)
    ensures aId != bId ==> forall s ::
      multiset(shared)[s] == if s in SlotsFor(availability, bId) then multiset(SlotsFor(availability, aId))[s] else 0
    ensures IsSubsequence(shared, SlotsFor(availability, aId))
  {
    if aId == bId then EmptySubsequence(SlotsFor(availability, aId)); []
    else Scheduler.SharedSlots(SlotsFor(availability, aId), SlotsFor(availability, bId))
  }

  /** An interviewer with no saved entry shares nothing with anyone. */
  lemma MissingEntrySharesNothing(availability: map<string, seq<string>>, aId: string, bId: string)
    requires aId !in availability || bId !in availability
    ensures SharedSlots(availability, aId, bId) == []
  {
    Scheduler.SharedSlotsEmpty(SlotsFor(availability, aId), SlotsFor(availability, bId));
  }

  // ---------------------------------------------------------------------
  // Confirming a booking
  // ---------------------------------------------------------------------

  /** The page's form state. */
  datatype BookingForm = BookingForm(
    interviewerAId: string,
    interviewerBId: string,
    candidateName: string,
    candidateEmail: string,
    firstPreference: string,
    secondPreference: string,
    selectedSlotKey: string)

  datatype BookingError = MissingCandidateInfo | SameInterviewer | NoSlotSelected | SlotAlreadyBlocked

  /** The input handed to the store's `bookCandidateSlot`. */
  datatype BookingRequest = BookingRequest(
    candidateName: string,
    candidateEmail: string,
    interviewerAId: string,
    interviewerBId: string,
    slotKey: string,
    firstPreference: Option<string>,
    secondPreference: Option<string>)

  datatype Submission = Rejected(error: BookingError) | Issued(request: BookingRequest)

  /** What one press of "Confirm booking" leaves: the decision, the form, the message shown. */
  datatype SubmitResult = SubmitResult(submission: Submission, form: BookingForm, message: string)

  const BookedMessage: string := "Candidate scheduled. The selected slot has been blocked."

  /** The message shown for a refused booking: never empty, never the success message. */
  function ErrorMessage(e: BookingError): (msg: string)
    ensures |msg| > 0 && msg != BookedMessage
  {
    match e
    case MissingCandidateInfo => "Add candidate name and email before booking."
    case SameInterviewer => "Interviewer A and B must be different."
    case NoSlotSelected => "Select a slot from the shared availability grid."
    case SlotAlreadyBlocked => "That slot is already booked out for both interviewers."
  }

  /** Each refusal has its own message, so the message tells which check failed. */
  lemma ErrorMessagesDistinct(e1: BookingError, e2: BookingError)
    ensures ErrorMessage(e1) == ErrorMessage(e2) ==> e1 == e2
  {
    // the four messages have four different lengths
    if e1 != e2 {
      assert |ErrorMessage(e1)| != |ErrorMessage(e2)|;
    }
  }

  /** `value || null` for a preference: the empty string means none. */
  function PreferenceOrNull(p: string): (r: Option<string>)
    ensures r.None? <==> p == ""
    ensures r.Some? ==> r.value == p
  {
    if p == "" then None else Some(p)
  }

  /**
   `bookSelectedSlot`: the checks in order (candidate info, distinct
   interviewers, a selected slot, the slot not blocked), then one request to
   the store and a reset of the candidate fields and the selection.
   */
  function BookSelectedSlot(form: BookingForm, bookings: seq<Scheduler.InterviewBooking>): (r: SubmitResult)
    // the first failing check decides the error
    ensures IsBlank(form.candidateName) || IsBlank(form.candidateEmail)
      ==> r.submission == Rejected(MissingCandidateInfo)
    ensures !IsBlank(form.candidateName) && !IsBlank(form.candidateEmail)
      && form.interviewerAId == form.interviewerBId
      ==> r.submission == Rejected(SameInterviewer)
    ensures !IsBlank(form.candidateName) && !IsBlank(form.candidateEmail)
      && form.interviewerAId != form.interviewerBId && form.selectedSlotKey == ""
      ==> r.submission == Rejected(NoSlotSelected)
    ensures !IsBlank(form.candidateName) && !IsBlank(form.candidateEmail)
      && form.interviewerAId != form.interviewerBId && form.selectedSlotKey != ""
      && form.selectedSlotKey in BlockedSlots(bookings, form.interviewerAId, form.interviewerBId)
      ==> r.submission == Rejected(SlotAlreadyBlocked)
    // a request goes out exactly when every check passes
    ensures r.submission.Issued? <==>
      && !IsBlank(form.candidateName) && !IsBlank(form.candidateEmail)
      && form.interviewerAId != form.interviewerBId
      && form.selectedSlotKey != ""
      && form.selectedSlotKey !in BlockedSlots(bookings, form.interviewerAId, form.interviewerBId)
    // a rejection only shows its message
    ensures r.submission.Rejected? ==> r.form == form && r.message == ErrorMessage(r.submission.error)
    // an issued request carries the trimmed candidate, the pair, the slot and the preferences
    ensures r.submission.Issued? ==> r.submission.request == BookingRequest(
      Trim(form.candidateName), Trim(form.candidateEmail),
      form.interviewerAId, form.interviewerBId, form.selectedSlotKey,
      PreferenceOrNull(form.firstPreference), PreferenceOrNull(form.secondPreference))
    // after an issued request the candidate fields and the selection are cleared
    ensures r.submission.Issued? ==> r.message == BookedMessage && r.form == form.(
      candidateName := "", candidateEmail := "", firstPreference := "", secondPreference := "",
      selectedSlotKey := "")
  {
    var error :=
      if IsBlank(form.candidateName) || IsBlank(form.candidateEmail) then Some(MissingCandidateInfo)
      else if form.interviewerAId == form.interviewerBId then Some(SameInterviewer)
      else if form.selectedSlotKey == "" then Some(NoSlotSelected)
      else if form.selectedSlotKey in BlockedSlots(bookings, form.interviewerAId, form.interviewerBId)
      then Some(SlotAlreadyBlocked)
      else None;
    match error
    case Some(e) => SubmitResult(Rejected(e), form, ErrorMessage(e))
    case None =>
      var request := BookingRequest(
        Trim(form.candidateName), Trim(form.candidateEmail),
        form.interviewerAId, form.interviewerBId, form.selectedSlotKey,
        PreferenceOrNull(form.firstPreference), PreferenceOrNull(form.secondPreference));
      var cleared := form.(
        candidateName := "", candidateEmail := "", firstPreference := "", secondPreference := "",
        selectedSlotKey := "");
      SubmitResult(Issued(request), cleared, BookedMessage)
  }

  /** An issued request never names a blank candidate and always names two interviewers. */
  lemma IssuedRequestWellFormed(form: BookingForm, bookings: seq<Scheduler.InterviewBooking>)
    requires BookSelectedSlot(form, bookings).submission.Issued?
    ensures var q := BookSelectedSlot(form, bookings).submission.request;
            && q.candidateName != "" && q.candidateEmail != ""
            && !IsWhitespace(q.candidateName[0]) && !IsWhitespace(q.candidateEmail[0])
            && q.interviewerAId != q.interviewerBId
            && q.slotKey != ""
            && q.slotKey !in Scheduler.BookedSlotsForPair(bookings, q.interviewerAId, q.interviewerBId)
  {
  }

  /** Whitespace-only candidate info is refused whatever the rest of the form says. */
  lemma WhitespaceNameRejected(form: BookingForm, bookings: seq<Scheduler.InterviewBooking>)
    requires forall i :: 0 <= i < |form.candidateName| ==> IsWhitespace(form.candidateName[i])
    ensures BookSelectedSlot(form, bookings) == SubmitResult(Rejected(MissingCandidateInfo), form,
      "Add candidate name and email before booking.")
  {
  }
}
