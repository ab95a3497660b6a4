# Interview scheduler: a verified model of its scheduling core

The scheduler lets interviewers paint their free half-hour slots on a week
grid. A recruiter then picks two interviewers, sees the slots both listed,
and books a candidate into one of them. Any slot that already holds a
booking for either interviewer is greyed out ("blocked").

This project models the logic under the React and database wiring:

- the time grid and the `day|time` slot key (`Slots`);
- the overlap engine: shared slots, blocked slots, interviewer names (`Scheduler`);
- the database layer's pure parts: the snake_case blocked-slot filter, the
  grouping of `interviewer_slots` rows, and the delete-then-insert write, on
  an abstract table (`SupabaseScheduler`);
- the booking page's derived lists and its ordered validation chain (`SchedulePage`);
- the client store's state transitions and the legacy-migration decision (`SchedulerStore`);
- the week grid's paint and pick rules (`AvailabilityGrid`);
- lemmas across these parts (`BookingFlow`).

Every database call, and every other effect, is a parameter that says what
happened: whether the call threw, the id and timestamp the database
generated, and what was thrown. React `setState` updates are functions from
state to state. All modules share `Common` (`Option`, `NoDuplicates`,
`IsSubsequence`).

Decoding a slot key follows the code. `const [day, time] = key.split("|")`
keeps the first two pieces and ignores any further ones. So
`DecodeSlotKey` accepts keys with more than one separator, although keys
are meant to have exactly two parts. A key without a separator gives
`None`, because `time` is then `undefined` and the next line throws.

## Model

| member | source | states |
|---|---|---|
| Slots.DecimalString | web/src/lib/availability/slots.ts:9-10 | `String(n)` is a non-empty string of decimal digits whose value is n, with no leading zero for n > 0 and none in any string longer than one digit (so 0 gives "0"), and at least two digits from 10 on. |
| Slots.PadStart | web/src/lib/availability/slots.ts:9-10 | The padded string has the requested width (or its own length if longer): fill characters first, then the original characters in order. |
| Slots.TwoDigits | web/src/lib/availability/slots.ts:9-10 | The padded label is all digits, at least two of them, and denotes n. Below 100 it is exactly the tens digit then the units digit. |
| Slots.TimeLabel | web/src/lib/availability/slots.ts:9-11 | For an hour and minute below 100 the label is `HH:MM`: two digits, a colon, two digits. |
| Slots.PushLabel | web/src/lib/availability/slots.ts:11 | Each push extends the labels built so far by exactly the next label of the reference grid. |
| Slots.GetTimeSlots | web/src/lib/availability/slots.ts:5-15 | The nested hour/minute loop yields exactly the reference grid, whose length is (20 − 9) × (60 / 30) = 22. |
| Slots.TimeGridEnds | web/src/lib/availability/slots.ts:7-12 | The grid has 22 labels. The first is "09:00" and the last is "19:30". |
| Slots.TimeGridWellFormed | web/src/lib/availability/slots.ts:9-11 | Every label is five characters: two digits for an hour in 9..19, a colon, then "00" or "30". |
| Slots.TimeGridAscending | web/src/lib/availability/slots.ts:7-12 | The labels are strictly ascending as strings, so no two are equal. |
| Slots.BuildSlotKey | web/src/lib/availability/slots.ts:17-19 | The key is the day, one separator character, then the time, at the stated positions. |
| Slots.Split | web/src/lib/availability/slots.ts:22 | Splitting on a character gives at least one piece and never a piece that contains the separator. There is exactly one piece iff the separator does not occur. Joining the pieces with the separator gives the string back. |
| Slots.DecodeSlotKey | web/src/lib/availability/slots.ts:21-22 | Reading a key back fails iff it has no separator. The day and time it yields contain no separator. The key starts with the key rebuilt from them, followed by nothing or by a further separator. |
| Slots.SlotKeyRoundTrip | web/src/lib/availability/slots.ts:17-22 | When neither day nor time contains the separator, splitting the key gives exactly [day, time] and decoding gives them back. |
| Slots.SlotKeyInjective | web/src/lib/availability/slots.ts:17-19 | For separator-free parts, two keys are equal iff their days and their times are equal. |
| Slots.GridLabelsHaveNoSeparator | web/src/lib/availability/slots.ts:9-11 | No grid label contains the separator, so every key the grid builds decodes. |
| Slots.SlotKeyNonEmpty | web/src/lib/availability/slots.ts:17-19 | A built key always contains the separator, so it is never empty. |
| Scheduler.SharedSlots | web/src/lib/scheduler.ts:18-24 | A slot is shared iff both A and B list it. A slot occurs as often as A lists it when B lists it, else not at all. The result is an order-preserving subsequence of A's list. |
| Scheduler.SharedSlotsLength | web/src/lib/scheduler.ts:23 | The shared list is no longer than A's. |
| Scheduler.SharedSlotsSymmetric | web/src/lib/scheduler.ts:22-23 | Swapping A and B does not change which slots are shared. |
| Scheduler.SharedSlotsEmpty | web/src/lib/scheduler.ts:22-23 | An empty list on either side shares nothing. |
| Scheduler.SharedSlotsExample | web/src/lib/scheduler.ts:18-24 | A free at 09:00 and 09:30, B only at 09:30, share exactly 09:30. |
| Scheduler.Involves | web/src/lib/scheduler.ts:33-36 | A booking involves the pair iff its A or its B participant is A or B. |
| Scheduler.BookedSlotsForPair | web/src/lib/scheduler.ts:26-39 | s is blocked iff some booking with A or B as either participant has slot s. s occurs once per such booking. The list is no longer than the ledger. |
| Scheduler.BookedSlotsFollowLedger | web/src/lib/scheduler.ts:31-38 | The blocked list is an order-preserving subsequence of the ledger's slot keys. |
| Scheduler.BookedSlotsIgnoreUnrelatedAppend | web/src/lib/scheduler.ts:33-36 | Appending a booking that involves neither interviewer leaves the list unchanged. |
| Scheduler.BookedSlotsIgnoreUnrelatedPrepend | web/src/lib/scheduler.ts:33-36 | Prepending such a booking leaves the list unchanged as well. |
| Scheduler.BookedSlotsPrependInvolved | web/src/lib/scheduler.ts:31-38 | Prepending a booking that involves either interviewer puts its slot at the front of the list. |
| Scheduler.BookedSlotsSwap | web/src/lib/scheduler.ts:33-36 | Swapping A and B gives the same list, in the same order. |
| Scheduler.FindById | web/src/lib/scheduler.ts:43 | The lookup finds the first entry with the id, or reports that none has it. |
| Scheduler.InterviewerName | web/src/lib/scheduler.ts:41-46 | The name is that of the first default interviewer with the id, else "Unknown interviewer". |
| Scheduler.InterviewerNameOfDefaults | web/src/lib/scheduler.ts:1-6 | Each of the four built-in ids resolves to its own name. |
| SupabaseScheduler.InsertedBooking | web/src/lib/supabase/scheduler.ts:97-115 | The returned row carries the generated id and timestamp and the input's candidate, pair and slot. An omitted preference comes back as `null`. A given preference, `null` included, comes back unchanged. |
| SupabaseScheduler.RowInvolves | web/src/lib/supabase/scheduler.ts:124-127 | A row involves the pair iff its interviewer_a_id or interviewer_b_id is A or B. |
| SupabaseScheduler.BookedSlotsForPair | web/src/lib/supabase/scheduler.ts:117-130 | A row's slot_key is included iff interviewer_a_id or interviewer_b_id equals A or B. Each slot occurs once per such row. |
| SupabaseScheduler.BookedSlotsSkipUnrelated | web/src/lib/supabase/scheduler.ts:123-127 | A row involving neither interviewer contributes nothing, wherever it sits. |
| SupabaseScheduler.SlotsOfEmpty | web/src/lib/supabase/scheduler.ts:51-55 | An interviewer has no slots in the table iff no row names them. |
| SupabaseScheduler.SlotsOfAppend | web/src/lib/supabase/scheduler.ts:54 | Reading an interviewer's slots from two concatenated tables reads each table in turn. |
| SupabaseScheduler.GetAllAvailability | web/src/lib/supabase/scheduler.ts:42-57 | The loop builds exactly the grouped view: keys are the ids that own rows, each list is that id's slot keys in row order, and no list is empty. |
| SupabaseScheduler.GroupingTotal | web/src/lib/supabase/scheduler.ts:50-56 | The grouped lists add up to the number of rows. |
| SupabaseScheduler.RowsNotOf | web/src/lib/supabase/scheduler.ts:65-68 | The delete keeps exactly the rows of other interviewers. |
| SupabaseScheduler.SlotsOfRowsNotOf | web/src/lib/supabase/scheduler.ts:65-68 | After the delete the interviewer has no slots. Every other interviewer's slots are as before. |
| SupabaseScheduler.RowsFor | web/src/lib/supabase/scheduler.ts:74-77 | One row per new key, in order, each owned by the interviewer. |
| SupabaseScheduler.SlotsOfRowsFor | web/src/lib/supabase/scheduler.ts:74-77 | The inserted rows give the interviewer exactly the new keys, in order, and give nobody else anything. |
| SupabaseScheduler.SetInterviewerSlots | web/src/lib/supabase/scheduler.ts:59-84 | On success the interviewer's slots are exactly the new keys, and others are always untouched. A failed delete changes nothing and inserts nothing. A failed insert leaves the interviewer with no rows. An empty list inserts nothing, and the insert is issued whenever the delete went through and the list is non-empty. Success holds iff the delete went through and either the list is empty or the insert went through. |
| SupabaseScheduler.SavedSlotsAreRead | web/src/lib/supabase/scheduler.ts:42-84 | After a successful write, the grouped read lists exactly the saved keys for that interviewer, with no entry when they are empty. Every other entry is as before. |
| SchedulePage.Trim | web/src/app/schedule/page.tsx:54 | `trim` keeps the slice between the leading and the trailing whitespace. It is empty iff the text is all whitespace, and what remains neither starts nor ends with whitespace. |
| SchedulePage.IsBlank | web/src/app/schedule/page.tsx:54 | `!x.trim()` holds iff every character is whitespace. |
| SchedulePage.SlotsFor | web/src/app/schedule/page.tsx:48-49 | A missing availability entry reads as an empty list. |
| SchedulePage.BlockedSlots | web/src/app/schedule/page.tsx:36-39 | The list is empty for a self-pairing. Otherwise s is in it iff a booking involving A or B has slot s, and occurs once per such booking. |
| SchedulePage.SharedSlots | web/src/app/schedule/page.tsx:46-51 | The list is empty for a self-pairing. Otherwise it holds exactly the slots both listed, each as often as A lists it, as a subsequence of A's list. |
| SchedulePage.MissingEntrySharesNothing | web/src/app/schedule/page.tsx:48-50 | An interviewer with no saved entry shares nothing. |
| SchedulePage.ErrorMessage | web/src/app/schedule/page.tsx:54-69 | Every refusal shows a non-empty message that differs from the success message. |
| SchedulePage.ErrorMessagesDistinct | web/src/app/schedule/page.tsx:54-69 | Different refusals show different messages. |
| SchedulePage.PreferenceOrNull | web/src/app/schedule/page.tsx:77-78 | An empty preference becomes `null`. Any other value is passed on unchanged. |
| SchedulePage.BookSelectedSlot | web/src/app/schedule/page.tsx:53-87 | The first failing check decides the error, in this order: blank name or email, same interviewers, no slot, blocked slot. A request goes out iff all checks pass. A rejection only shows its message. A request carries the trimmed name and email, the pair, the slot and the preferences, and then the candidate fields and the selection are cleared. |
| SchedulePage.IssuedRequestWellFormed | web/src/app/schedule/page.tsx:54-79 | An issued request has a non-blank name and email that start with non-whitespace, two different interviewers, a non-empty slot, and a slot that is not blocked. |
| SchedulePage.WhitespaceNameRejected | web/src/app/schedule/page.tsx:54-57 | A whitespace-only name is refused first, with its message, whatever the rest of the form says. |
| SchedulerStore.MessageOr | web/src/lib/store/schedulerStore.tsx:120-123 | An `Error` shows its message. Another value shows its `message` property when it has one, else the fallback. |
| SchedulerStore.ErrorMessageOr | web/src/lib/store/schedulerStore.tsx:202 | An `Error` shows its message. Any other value shows the fallback. |
| SchedulerStore.MessageReadingsDiffer | web/src/lib/store/schedulerStore.tsx:120-123 | The two readings differ exactly on a non-`Error` value that carries a message other than the fallback (both directions). |
| SchedulerStore.NullToNone | web/src/lib/store/schedulerStore.tsx:38-39 | `?? null` gives a value exactly for a present column. |
| SchedulerStore.MapToInterviewBooking | web/src/lib/store/schedulerStore.tsx:29-41 | Each column goes to its camelCase field. Each preference is the column read through `?? null`: the value when present, else null. |
| SchedulerStore.MapBookings | web/src/lib/store/schedulerStore.tsx:177 | Each row maps, in place, to its booking. |
| SchedulerStore.BookedSlotsAgree | web/src/lib/store/schedulerStore.tsx:141 | The camelCase blocked-slot filter over mapped bookings equals the snake_case filter over the rows. |
| SchedulerStore.ResolveCurrentInterviewer | web/src/lib/store/schedulerStore.tsx:179-185 | A stored, non-empty id of a listed interviewer wins. Otherwise the first listed id wins, or "i-ava" when the list is empty. With any interviewer listed, the result is always a listed id. |
| SchedulerStore.Loaded | web/src/lib/store/schedulerStore.tsx:177-195 | A finished load installs the fetched lists and the mapped bookings, resolves the current interviewer, and clears loading, the error and the save status. |
| SchedulerStore.LoadOnMount | web/src/lib/store/schedulerStore.tsx:161-217 | On mount the load reads "i-ava", whatever was stored before. The current interviewer is "i-ava" when listed, else the first listed id, else "i-ava". |
| SchedulerStore.MountForgetsChoice | web/src/lib/store/schedulerStore.tsx:179-185 | With Ava and Liam listed and Liam chosen last time, the mount load picks Ava. Reading the key before it is overwritten would pick Liam. |
| SchedulerStore.LoadRestoresChoice | web/src/lib/store/schedulerStore.tsx:179-185 | A stored non-empty id that is still listed is restored by the load. |
| SchedulerStore.LoadFailed | web/src/lib/store/schedulerStore.tsx:196-204 | A failed load stops loading and changes nothing else. The error is the `Error`'s message, or "Failed to load scheduler data" for any other thrown value. |
| SchedulerStore.SetCurrentInterviewer | web/src/lib/store/schedulerStore.tsx:222-228 | The store switches interviewer, resets the save status, and changes nothing else. |
| SchedulerStore.SetInterviewerSlots | web/src/lib/store/schedulerStore.tsx:229-238 | Only that interviewer's entry is replaced. Other entries and the bookings are unchanged, and the status becomes idle. |
| SchedulerStore.SaveStarted | web/src/lib/store/schedulerStore.tsx:111 | A save starts as "saving" with no error. Nothing else changes. |
| SchedulerStore.SaveSucceeded | web/src/lib/store/schedulerStore.tsx:114 | A completed write is "saved" with no error. Nothing else changes. |
| SchedulerStore.SaveTimerElapsed | web/src/lib/store/schedulerStore.tsx:115-117 | The timer returns the status to idle and leaves the error. |
| SchedulerStore.SaveFailed | web/src/lib/store/schedulerStore.tsx:118-128 | A failed write returns to idle. The error is the thrown value's message, or "Failed to save availability" when it has none. Nothing else changes. |
| SchedulerStore.SaveAvailability | web/src/lib/store/schedulerStore.tsx:108-130 | A save passes through "saving" with no error. It ends "saved" iff the table write succeeded, and then the table holds the in-memory list. Otherwise it ends idle with the thrown value's message, or "Failed to save availability". Other interviewers' rows are untouched, and the save changes no part of the store state besides the status and the error. |
| SchedulerStore.NoneToNull | web/src/lib/store/schedulerStore.tsx:247-248 | A preference is never sent as "absent", and mapping it back gives the original. |
| SchedulerStore.CreateInput | web/src/lib/store/schedulerStore.tsx:241-249 | The insert carries the request's candidate, pair, slot and preferences. |
| SchedulerStore.BookingCreated | web/src/lib/store/schedulerStore.tsx:250-256 | The new booking goes first, the earlier ones keep their order, and the error clears. Nothing else changes. |
| SchedulerStore.BookingFailed | web/src/lib/store/schedulerStore.tsx:257-263 | The bookings are unchanged. The error is the thrown value's message, or "Failed to create booking" when it has none. Nothing else changes. |
| SchedulerStore.ThrownMessageShownExceptOnLoad | web/src/lib/store/schedulerStore.tsx:118-128 | A non-`Error` value carrying a message is shown by a failed save and a failed booking. A failed load shows its fallback instead. |
| SchedulerStore.ClearError | web/src/lib/store/schedulerStore.tsx:266-268 | The error becomes null and nothing else changes. |
| SchedulerStore.BookCandidateSlot | web/src/lib/store/schedulerStore.tsx:240-264 | A successful insert prepends a booking with the request's slot, pair, candidate and preferences and clears the error. A failed insert leaves the bookings and sets the thrown value's message, or "Failed to create booking". |
| SchedulerStore.AvailabilityCalls | web/src/lib/store/schedulerStore.tsx:61-70 | One save is issued per legacy entry with at least one slot, in entry order, and for no other entry. |
| SchedulerStore.LegacyInput | web/src/lib/store/schedulerStore.tsx:73-79 | A legacy booking is inserted with its candidate, pair and slot, and with both preferences left out. |
| SchedulerStore.BookingCalls | web/src/lib/store/schedulerStore.tsx:71-82 | One insert is issued per legacy booking, in order, without preferences. |
| SchedulerStore.MigrationCalls | web/src/lib/store/schedulerStore.tsx:60-82 | The plan starts with the saves: exactly the legacy entries that hold a slot, in entry order, with no empty list saved. Then comes one insert per legacy booking, pointwise and in booking order, without preferences. The length is the sum of the two. |
| SchedulerStore.Migrate | web/src/lib/store/schedulerStore.tsx:43-91 | The key is removed iff the result is true. That holds iff there was legacy text that parsed, at least one call was planned, and none threw. When nothing throws, every planned call is made, in order. A throwing call ends the run right after it. With no text, or text that does not parse, nothing is called. |
| SchedulerStore.MigrationDecision | web/src/lib/store/schedulerStore.tsx:60-87 | Something is migrated iff some interviewer had slots or a booking was recorded. An empty list is never saved. |
| AvailabilityGrid.Dedupe | web/src/components/availability/WeekAvailabilityGrid.tsx:28 | `new Set` keeps every element once and adds nothing. The elements come in the order of their first occurrence. |
| AvailabilityGrid.DedupeDistinct | web/src/components/availability/WeekAvailabilityGrid.tsx:48 | A list with no duplicates is unchanged by the set conversion. |
| AvailabilityGrid.Without | web/src/components/availability/WeekAvailabilityGrid.tsx:50 | Deleting a key keeps exactly the other elements, in order. |
| AvailabilityGrid.WithoutAbsent | web/src/components/availability/WeekAvailabilityGrid.tsx:50 | Deleting a key that is not present changes nothing. |
| AvailabilityGrid.WithoutDistinct | web/src/components/availability/WeekAvailabilityGrid.tsx:50-51 | Deleting keeps a duplicate-free list duplicate-free. |
| AvailabilityGrid.UpdateSlot | web/src/components/availability/WeekAvailabilityGrid.tsx:46-52 | Without a change handler nothing is emitted. Adding emits the old selection plus the key, and removing emits the old selection minus the key. The emitted list never has duplicates. |
| AvailabilityGrid.AddKeepsOrder | web/src/components/availability/WeekAvailabilityGrid.tsx:48-51 | On a duplicate-free selection, adding keeps the order and appends the key only when it is new. |
| AvailabilityGrid.AddThenRemove | web/src/components/availability/WeekAvailabilityGrid.tsx:46-52 | Adding a new key and then removing it restores the selection exactly. |
| AvailabilityGrid.WithoutAppend | web/src/components/availability/WeekAvailabilityGrid.tsx:50 | Deleting a key just appended gives back the list before it. |
| AvailabilityGrid.StartDrag | web/src/components/availability/WeekAvailabilityGrid.tsx:54-60 | Without a handler nothing happens. Otherwise a drag starts in "remove" mode iff the cell is selected, and the pressed cell is toggled while every other cell keeps its state. |
| AvailabilityGrid.DragOver | web/src/components/availability/WeekAvailabilityGrid.tsx:62-65 | The stored mode is applied only while dragging and with a handler. |
| AvailabilityGrid.MouseUp | web/src/components/availability/WeekAvailabilityGrid.tsx:40-44 | Releasing the mouse ends the drag and keeps the mode. |
| AvailabilityGrid.IsSelectable | web/src/components/availability/WeekAvailabilityGrid.tsx:94 | Without a selectable list every cell is selectable. With one, exactly the listed cells are. |
| AvailabilityGrid.IsBlocked | web/src/components/availability/WeekAvailabilityGrid.tsx:93 | Without a blocked list no cell is blocked. With one, exactly the listed cells are. |
| AvailabilityGrid.CanDragEdit | web/src/components/availability/WeekAvailabilityGrid.tsx:96-97 | A cell can be painted iff the grid is in availability mode, has an edit handler, and the cell is on the selectable list (if any) and off the blocked list (if any). |
| AvailabilityGrid.CanClickSelect | web/src/components/availability/WeekAvailabilityGrid.tsx:98 | A cell can be picked iff the grid is in booking mode and the cell is on the selectable list (if any) and off the blocked list (if any). |
| AvailabilityGrid.IsEnabled | web/src/components/availability/WeekAvailabilityGrid.tsx:118 | A cell is enabled iff it is selectable, not blocked, and, in availability mode, the grid has an edit handler. |
| AvailabilityGrid.DefaultsOpenEveryCell | web/src/components/availability/WeekAvailabilityGrid.tsx:93-94 | With no selectable list every cell is selectable. With no blocked list none is blocked. |
| AvailabilityGrid.CellPredicatesExclusive | web/src/components/availability/WeekAvailabilityGrid.tsx:96-98 | No cell is both paintable and pickable. A blocked cell is neither. |
| AvailabilityGrid.MouseDown | web/src/components/availability/WeekAvailabilityGrid.tsx:119-121 | A press starts a drag only on a paintable cell. |
| AvailabilityGrid.MouseEnter | web/src/components/availability/WeekAvailabilityGrid.tsx:122-124 | Entering a cell paints it iff the cell is paintable and a drag is on. |
| AvailabilityGrid.Click | web/src/components/availability/WeekAvailabilityGrid.tsx:125-127 | A click picks the cell iff there is a handler and the cell is pickable. |
| AvailabilityGrid.BlockedCellInert | web/src/components/availability/WeekAvailabilityGrid.tsx:93-98 | A blocked cell ignores presses, entries and clicks. |
| AvailabilityGrid.AddDragPaints | web/src/components/availability/WeekAvailabilityGrid.tsx:54-65 | An adding drag leaves selected exactly the old selection plus every paintable cell it crossed. |
| AvailabilityGrid.RemoveDragErases | web/src/components/availability/WeekAvailabilityGrid.tsx:54-65 | A removing drag leaves selected exactly the old selection minus every paintable cell it crossed. |
| AvailabilityGrid.ReleasedDragIsInert | web/src/components/availability/WeekAvailabilityGrid.tsx:40-44 | After release, moving over cells changes nothing. |
| BookingFlow.BookingGridProps | web/src/app/schedule/page.tsx:237-245 | The booking page's grid is in booking mode, selectable on the shared list and blocked on the blocked list. |
| BookingFlow.PickedCellPassesChecks | web/src/components/availability/WeekAvailabilityGrid.tsx:98 | A cell on the booking grid can be picked iff the pair differs, both listed the slot and no booking of either holds it. With a candidate filled in, confirming a picked slot issues the booking. |
| BookingFlow.SelfPairingPicksNothing | web/src/app/schedule/page.tsx:37-47 | When A equals B, no cell can be picked. |
| BookingFlow.CreatedBookingBlocksSlot | web/src/lib/store/schedulerStore.tsx:253 | Once created, a booking's slot is blocked for every pair that includes either of its interviewers, and confirming it again is refused. |
| BookingFlow.IssuedBookingIsNotRepeatable | web/src/app/schedule/page.tsx:66-79 | After the page's request is created, a second confirm of the same slot with another candidate is refused as blocked. |
| BookingFlow.PaintedSelectionIsSaved | web/src/lib/store/schedulerStore.tsx:108-114 | Composing the store's operations: a painted selection stored in memory and then saved successfully is exactly what the table holds for the current interviewer. |

## Left out

- Database and browser I/O. The Supabase client, `localStorage` and `JSON.parse` are not modelled. Their outcomes are parameters: whether a call threw, generated ids and timestamps, the parsed snapshot.
- Query ordering. `getInterviewers` orders by id and `getBookings` by `created_at`; the model takes the rows in whatever order they arrive.
- SupabaseScheduler.SavedSlotsAreRead: the read-back order is that of a table kept as a sequence with inserts appended. The select in `getAllAvailability` has no `order`, so the program only promises the saved keys as a multiset. The same holds for `SupabaseScheduler.SetInterviewerSlots` and `BookingFlow.PaintedSelectionIsSaved`.
- Interviewer ids are assumed not to name `Object.prototype` members such as `constructor` or `toString`. With such an id, `getAllAvailability` throws on `push` and the booking page's `?? []` yields a non-array, whereas `GetAllAvailability` and `SlotsFor` treat every id as a plain map key.
- React rendering, hooks, context and the two-second `setTimeout` delay. `SaveTimerElapsed` is the timer's effect.
- Concurrency. The cancelled flag of the initial load, last-completion-wins saves, and the double-booking race are not modelled. No check in the data layer refuses a slot that is already booked, so two racing bookings of one slot can both be inserted.
- The `refetch` transitions of the store are not modelled. They repeat the load with the current interviewer kept.
- The date half of `formatSlotKey` (`toLocaleString`) is not modelled. Nor are `getWeekDates` and `formatWeekDate`, which depend on `Date` and the time zone. The week is any list of day strings.
- `lib/scheduler.ts` exports no `getBlockedSlotLabels` and only a one-argument `getInterviewerName`, and `WeekAvailabilityGridProps` declares no `blockedSlotLabels`, so the booking page's uses of them are not modelled.
- No page calls `saveAvailability`, and the context type does not expose it: the availability page only makes the in-memory edit. `SaveAvailability` and `BookingFlow.PaintedSelectionIsSaved` model the store operation as written, which the program never triggers, so painted availability is not persisted.
- The "slots available" count on the booking page is a display-only length subtraction and is not modelled.
- The grid's CSS classes and the active-cell highlight are not modelled. `activeSlotKey` is carried but never changes behaviour.
- `teams.ts`, `types.ts` and the UI-only pages are not part of this model.
- SchedulerStore.MessageOr: a thrown value whose `message` property is not a string is not distinguished. Such a `message` would be used as is.

## Findings

| source | as written | input that shows it | evidently intended | confidence | as-written member | corrected member |
|---|---|---|---|---|---|---|
| web/src/lib/store/schedulerStore.tsx:214-217 | On mount, the effect that stores `currentInterviewerId` runs while the load is suspended at its first `await`. It writes the initial "i-ava" under the key the load reads afterwards, so the earlier choice is always lost. | Ava and Liam listed, Liam chosen in the previous visit: the load picks Ava. | The load restores a stored choice that is still listed. | medium, not executed | SchedulerStore.LoadOnMount, SchedulerStore.MountForgetsChoice | SchedulerStore.Loaded, SchedulerStore.LoadRestoresChoice |
