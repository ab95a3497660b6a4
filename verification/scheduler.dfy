/**
 The overlap engine on the client-side booking record: the slots two
 interviewers share, the slots already taken by a booking involving either
 of them, and the name lookup over the built-in interviewer list.
 */
module Scheduler {
  import opened Common

  /** A booking as the pages see it (camelCase fields; preferences `null` when not given). */
  datatype InterviewBooking = InterviewBooking(
    id: string,
    candidateName: string,
    candidateEmail: string,
    interviewerAId: string,
    interviewerBId: string,
    slotKey: string,
    createdAt: string,
    firstPreference: Option<string>,
    secondPreference: Option<string>)

  // ---------------------------------------------------------------------
  // Shared slots
  // ---------------------------------------------------------------------

  /**
   `getSharedSlots`: A's slots, in A's order, that B also lists. A slot A
   lists twice is kept twice: its count is A's count when B lists it.
   */
  function SharedSlots(aSlots: seq<string>, bSlots: seq<string>): (shared: seq<string>)
    ensures forall s :: s in shared <==> s in aSlots && s in bSlots
    ensures forall s :: multiset(shared)[s] == if s in bSlots then multiset(aSlots)[s] else 0
    ensures IsSubsequence(shared, aSlots)
  {
    if |aSlots| == 0 then []
    else
      var rest := SharedSlots(aSlots[1..], bSlots);
      assert aSlots == [aSlots[0]] + aSlots[1..];
      assert forall s :: s in aSlots <==> s == aSlots[0] || s in aSlots[1..];
      if aSlots[0] in bSlots then [aSlots[0]] + rest else rest
  }

  /** The shared list is no longer than A's list. */
  lemma SharedSlotsLength(aSlots: seq<string>, bSlots: seq<string>)
    ensures |SharedSlots(aSlots, bSlots)| <= |aSlots|
  {
    SubsequenceBounds(SharedSlots(aSlots, bSlots), aSlots);
  }

  /** Swapping the interviewers may reorder the result but never changes its members. */
  lemma SharedSlotsSymmetric(aSlots: seq<string>, bSlots: seq<string>)
    ensures forall s :: s in SharedSlots(aSlots, bSlots) <==> s in SharedSlots(bSlots, aSlots)
  {
  }

  /** Nobody shares anything with an interviewer who has no slots. */
  lemma SharedSlotsEmpty(aSlots: seq<string>, bSlots: seq<string>)
    ensures SharedSlots([], bSlots) == []
    ensures SharedSlots(aSlots, []) == []
  {
  }

  /** Example: A free at 09:00 and 09:30, B at 09:30 only. */
  lemma SharedSlotsExample()
    ensures SharedSlots(["2026-03-09|09:00", "2026-03-09|09:30"], ["2026-03-09|09:30"])
         == ["2026-03-09|09:30"]
  {
  }

  // ---------------------------------------------------------------------
  // Blocked slots
  // ---------------------------------------------------------------------

  /** Interviewer `aId` or `bId` is one of the two participants of `booking`. */
  function Involves(booking: InterviewBooking, aId: string, bId: string): (b: bool)
    ensures b <==> || booking.interviewerAId == aId || booking.interviewerAId == bId
                   || booking.interviewerBId == aId || booking.interviewerBId == bId
  {
    var participants := [booking.interviewerAId, booking.interviewerBId];
    aId in participants || bId in participants
  }

  /** The slot keys of a ledger, in ledger order. */
  function SlotKeys(bookings: seq<InterviewBooking>): (keys: seq<string>)
    ensures |keys| == |bookings|
    ensures forall i :: 0 <= i < |bookings| ==> keys[i] == bookings[i].slotKey
  {
    seq(|bookings|, i requires 0 <= i < |bookings| => bookings[i].slotKey)
  }

  /** How many bookings of the ledger involve A or B and take slot `s`. */
  ghost function InvolvedAt(bookings: seq<InterviewBooking>, aId: string, bId: string, s: string): nat
  {
    if |bookings| == 0 then 0
    else
      (if Involves(bookings[0], aId, bId) && bookings[0].slotKey == s then 1 else 0)
      + InvolvedAt(bookings[1..], aId, bId, s)
  }

  /**
   `getBookedSlotsForPair`: the slot of every booking in which A or B takes
   part, once per such booking.
   */
  function BookedSlotsForPair(bookings: seq<InterviewBooking>, aId: string, bId: string): (slots: seq<string>)
    ensures |slots| <= |bookings|
    ensures forall s :: s in slots <==>
      exists booking :: booking in bookings && Involves(booking, aId, bId) && booking.slotKey == s
    ensures forall s :: multiset(slots)[s] == InvolvedAt(bookings, aId, bId, s)
  {
    if |bookings| == 0 then []
    else
      var rest := BookedSlotsForPair(bookings[1..], aId, bId);
      assert forall b :: b in bookings <==> b == bookings[0] || b in bookings[1..];
      if Involves(bookings[0], aId, bId) then [bookings[0].slotKey] + rest else rest
  }

  /** The blocked list keeps ledger order: it is a subsequence of the ledger's slot keys. */
  lemma {:induction false} BookedSlotsFollowLedger(bookings: seq<InterviewBooking>, aId: string, bId: string)
    ensures IsSubsequence(BookedSlotsForPair(bookings, aId, bId), SlotKeys(bookings))
  {
    if |bookings| > 0 {
      BookedSlotsFollowLedger(bookings[1..], aId, bId);
      assert SlotKeys(bookings)[1..] == SlotKeys(bookings[1..]);
    }
  }

  /** A booking that involves neither interviewer, added at the end, changes nothing. */
  lemma {:induction false} BookedSlotsIgnoreUnrelatedAppend(
    bookings: seq<InterviewBooking>, other: InterviewBooking, aId: string, bId: string)
    requires !Involves(other, aId, bId)
    ensures BookedSlotsForPair(bookings + [other], aId, bId) == BookedSlotsForPair(bookings, aId, bId)
  {
    if |bookings| == 0 {
      assert BookedSlotsForPair([other], aId, bId) == BookedSlotsForPair([other][1..], aId, bId);
    } else {
      assert (bookings + [other])[1..] == bookings[1..] + [other];
      BookedSlotsIgnoreUnrelatedAppend(bookings[1..], other, aId, bId);
    }
  }

  /** A booking that involves neither interviewer, added at the front, changes nothing. */
  lemma BookedSlotsIgnoreUnrelatedPrepend(
    bookings: seq<InterviewBooking>, other: InterviewBooking, aId: string, bId: string)
    requires !Involves(other, aId, bId)
    ensures BookedSlotsForPair([other] + bookings, aId, bId) == BookedSlotsForPair(bookings, aId, bId)
  {
    assert ([other] + bookings)[1..] == bookings;
  }

  /** A booking that involves either interviewer, added at the front, puts its slot first. */
  lemma BookedSlotsPrependInvolved(
    bookings: seq<InterviewBooking>, booking: InterviewBooking, aId: string, bId: string)
    requires Involves(booking, aId, bId)
    ensures BookedSlotsForPair([booking] + bookings, aId, bId)
         == [booking.slotKey] + BookedSlotsForPair(bookings, aId, bId)
  {
    assert ([booking] + bookings)[1..] == bookings;
  }

  /** Which interviewer is called A and which B does not matter, not even for the order. */
  lemma {:induction false} BookedSlotsSwap(bookings: seq<InterviewBooking>, aId: string, bId: string)
    ensures BookedSlotsForPair(bookings, aId, bId) == BookedSlotsForPair(bookings, bId, aId)
  {
    if |bookings| > 0 {
      BookedSlotsSwap(bookings[1..], aId, bId);
    }
  }

  // ---------------------------------------------------------------------
  // Interviewer names
  // ---------------------------------------------------------------------

  datatype DefaultInterviewer = DefaultInterviewer(id: string, name: string)

  /** `defaultInterviewers`: the four built-in interviewers. */
  const DefaultInterviewers: seq<DefaultInterviewer> := [
    DefaultInterviewer("i-ava", "Ava Shah"),
    DefaultInterviewer("i-liam", "Liam Chen"),
    DefaultInterviewer("i-noah", "Noah Patel"),
    DefaultInterviewer("i-mia", "Mia Lopez")
  ]

  const UnknownInterviewer: string := "Unknown interviewer"

  /** `Array.prototype.find` by id: the position of the first entry with that id, if any. */
  function FindById(list: seq<DefaultInterviewer>, id: string): (found: Option<nat>)
    ensures found.Some? ==> found.value < |list| && list[found.value].id == id
    ensures found.Some? ==> forall j :: 0 <= j < found.value ==> list[j].id != id
    ensures found.None? ==> forall j :: 0 <= j < |list| ==> list[j].id != id
  {
    if |list| == 0 then None
    else if list[0].id == id then Some(0)
    else match FindById(list[1..], id)
      case None => None
      case Some(k) => Some(k + 1)
  }

  /** `getInterviewerName`: the first matching default interviewer's name, else a fixed fallback. */
  function InterviewerName(id: string): (name: string)
    ensures forall i ::
      (0 <= i < |DefaultInterviewers| && DefaultInterviewers[i].id == id
       && (forall j :: 0 <= j < i ==> DefaultInterviewers[j].id != id))
      ==> name == DefaultInterviewers[i].name
    ensures (forall i :: 0 <= i < |DefaultInterviewers| ==> DefaultInterviewers[i].id != id)
      ==> name == UnknownInterviewer
  {
    match FindById(DefaultInterviewers, id)
    case Some(i) => DefaultInterviewers[i].name
    case None => UnknownInterviewer
  }

  /** The built-in ids are distinct, so each one resolves to its own name. */
  lemma InterviewerNameOfDefaults()
    ensures forall i :: 0 <= i < |DefaultInterviewers| ==>
      InterviewerName(DefaultInterviewers[i].id) == DefaultInterviewers[i].name
    ensures InterviewerName("i-liam") == "Liam Chen"
  {
  }
}
