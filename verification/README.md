# Clinic slot allocation and booking, modelled in Dafny

This project models the booking core of a small clinic web application. It covers:

- **Day schedule.** Eight canonical one-hour slots per day, 09:00 to 17:00 (`generate30MinSlots`, despite its name, makes one slot per hour, as its comment at src/lib/api/slots/index.ts:26 says). Stored slots of that day are overlaid on them, for every day in a date range.
- **Slot resolver.** A requested date and start time become a stored slot that starts within ten minutes of the request. If there is none, a new slot is created, already unavailable.
- **Booking workflows.** Book, cancel and reschedule an appointment, each a transaction over the slot and appointment tables.
- **Bearer-token check** in front of the API routes.

Representation choices:

- **Instants** are integer milliseconds in one fixed zone, so a calendar day is 86 400 000 ms (`Time`). JavaScript `Date` objects that the code changes in place are the class `Time.JsDate`.
- **The store** (`Store.Store`) is a class. Its slot and appointment tables are sequences in row order, so "the first row that matches" is well defined. It also records every tracking id it has issued.
- **Workflow pairing.** Each workflow is a pure transition function over the store's contents (`Appointments.Book`, `Appointments.Cancel`, `Appointments.Reschedule`, `SlotResolver.Resolve`). A method on the store is proved to perform exactly that transition (`Appointments.BookAppointment`, ...).
- **Fresh identifiers.** The store picks the fresh ids it hands out: cuid slot and appointment ids, and integer tracking ids. The transition functions take them as parameters.

The module `Reservations` states the rule the booking workflows are meant to keep:

- every slot held by an appointment is unavailable;
- no slot is held twice.

It shows that booking and rescheduling, as written, break that rule. It then proves that the corrected steps keep it (see Findings).

## Model

| member | source | states |
|---|---|---|
| Time.WithHours | src/lib/api/slots/queries.ts:40 | `setHours(h, m, s)` keeps the day and the milliseconds and sets the hours, minutes and seconds |
| Time.WithHoursMillis | src/lib/api/slots/index.ts:22 | `setHours(h, m, s, ms)` keeps the day and sets every time-of-day field |
| Time.WithSeconds | src/lib/api/slots/queries.ts:41 | `setSeconds(s, ms)` keeps the day, hours and minutes and sets seconds and milliseconds |
| Time.JsDate.SetHours | src/lib/api/slots/index.ts:29-30 | the date object is moved in place to the `setHours` instant, which is also returned |
| Time.JsDate.SetHoursMillis | src/lib/api/slots/index.ts:22 | in-place `setHours` with milliseconds |
| Time.JsDate.SetSeconds | src/lib/api/slots/queries.ts:41 | in-place `setSeconds`, returning the new instant |
| Time.JsDate.AddOneDay | src/lib/api/slots/index.ts:56 | `setDate(getDate() + 1)` moves the object one calendar day on, at the same time of day |
| Store.SetAvailability | src/lib/api/appointments/index.ts:40-43 | the availability update changes the flag of the rows with that id and nothing else, keeping every id |
| Store.SetAvailabilityFlag | src/lib/api/appointments/index.ts:40-43 | every row carrying the id has the new flag after the update |
| Store.SetAvailabilityKeepsIds | src/lib/api/appointments/index.ts:40-43 | the update keeps the set of slot ids |
| Store.SlotById | src/lib/api/slots/queries.ts:9-14 | the row with that id, absent exactly when no row has it |
| Store.RemoveAppointment | src/lib/api/appointments/index.ts:95-97 | delete by id leaves exactly the rows with other ids |
| Store.RemoveUniqueRow | src/lib/api/appointments/index.ts:95-97 | with unique ids, deleting one row keeps the others in order |
| Store.SetAppointmentSlot | src/lib/api/appointments/index.ts:193-196 | every row keeps its id, tracking id, name and email; the rows with that id carry the new slot id, every other row keeps its own |
| Store.SetAppointmentSlotKeepsIds | src/lib/api/appointments/index.ts:193-196 | moving an appointment keeps the set of appointment ids |
| Store.FirstAppointment | src/lib/api/appointments/index.ts:80-87 | the lookup finds a row with that tracking id and exactly that email, or reports that none exists |
| Store.FirstAppointmentIsTheOne | src/lib/api/appointments/index.ts:80-87 | in a valid store the lookup by an appointment's tracking id and email finds that appointment |
| Store.Store.CreateSlot | src/lib/api/slots/index.ts:119-124 | a new row with an unused id, the given fields, appended; the other tables unchanged |
| Store.Store.UpdateSlotAvailability | src/lib/api/appointments/index.ts:40-43 | the slot table becomes `SetAvailability` of the old one; the updated row is returned |
| Store.Store.CreateAppointment | src/lib/api/appointments/index.ts:33-37 | a new appointment on the slot, with an unused id and a tracking id never issued before |
| Store.Store.DeleteAppointment | src/lib/api/appointments/index.ts:95-97 | the appointment table loses that row only; the store stays valid |
| Store.Store.UpdateAppointmentSlot | src/lib/api/appointments/index.ts:193-196 | the appointment table becomes `SetAppointmentSlot` of the old one; the store stays valid |
| Store.ValidAfterSetAvailability | src/lib/api/appointments/index.ts:40-43 | changing a slot's flag keeps ids unique and every reference in place |
| Store.ValidAfterNewSlot | src/lib/api/slots/index.ts:119-124 | appending a slot under an unused id keeps the store valid |
| Store.ValidAfterNewAppointment | src/lib/api/appointments/index.ts:33-37 | appending an appointment with unused ids on a stored slot keeps the store valid |
| Store.ValidAfterSetAppointmentSlot | src/lib/api/appointments/index.ts:193-196 | moving an appointment to a stored slot keeps the store valid |
| SlotQueries.SlotsByDate | src/lib/api/slots/queries.ts:21-36 | a row is listed iff its date lies in `[date, till]` and, only when asked, it has the wanted availability; a missing `till` is 23:59:59 of the same day |
| SlotQueries.DefaultRangeIsOneDay | src/lib/api/slots/queries.ts:31 | without `till`, every listed row is on the calendar day of `date` and not before it |
| SlotQueries.RequestWindow | src/lib/api/slots/queries.ts:40-44 | the lookup window covers the requested day and starts between the requested minute and ten minutes later; the start bound has zero seconds |
| SlotQueries.RequestInOwnWindow | src/lib/api/slots/queries.ts:40-56 | a slot dated and starting exactly at the requested instants is inside the request's window |
| SlotQueries.WindowBounds | src/lib/api/slots/queries.ts:46-56 | a matched slot is on the requested day and starts less than a minute before to ten minutes after the requested time |
| SlotQueries.MidnightMissedWhenRequestHasMillis | src/lib/api/slots/queries.ts:40 | `setHours(0, 0, 0)` keeps milliseconds, so a slot dated exactly at midnight is missed when the request carries milliseconds |
| SlotQueries.FirstInWindow | src/lib/api/slots/queries.ts:46-57 | the index of the first row in the window, with no earlier row in it |
| SlotQueries.FindSlotIn | src/lib/api/slots/queries.ts:46-58 | a row in the window, absent exactly when no row is in it |
| SlotQueries.FirstMatchIs | src/lib/api/slots/queries.ts:46-58 | a row in the window with none before it is what the lookup returns |
| SlotQueries.FlagsKeepFirstMatch | src/lib/api/slots/queries.ts:46-58 | changing availability flags leaves the lookup on the same row, carrying its new flag |
| SlotQueries.GetSlotByDateAndTime | src/lib/api/slots/queries.ts:39-59 | the caller's two dates are normalised in place, and the result is the first row in the window of the original instants |
| SlotSchedule.SlotStart | src/lib/api/slots/index.ts:25-30 | the k-th canonical start is (9 + k):00:00.000 on the given day |
| SlotSchedule.SlotsAreContiguous | src/lib/api/slots/index.ts:29-30 | each canonical slot ends where the next starts, the last at 17:00, and starts ascend |
| SlotSchedule.Generate30MinSlots | src/lib/api/slots/index.ts:21-36 | exactly eight available one-hour slots 09:00 to 17:00, all sharing the caller's date object, which ends at 17:00 of that day |
| SlotSchedule.Group | src/lib/api/slots/index.ts:46-54 | a day's group holds exactly the rows dated that day |
| SlotSchedule.GroupByDay | src/lib/api/slots/index.ts:46-54 | the `reduce` keys exactly the days rows fall on, each mapped to that day's rows in table order; its key list is those days in the order of their first row |
| SlotSchedule.FirstSeenDaysOnceEach | src/lib/api/slots/index.ts:46-54 | the `reduce`'s key list names every day some row falls on, and no day twice |
| SlotSchedule.FillCountBound | src/lib/api/slots/index.ts:56 | the day loop runs an n-th time exactly when `from` + n days is not after `to` |
| SlotSchedule.FilledDaysAreStepsOfOneDay | src/lib/api/slots/index.ts:56-61 | the filled days are exactly the days of `from` + k days not after `to` |
| SlotSchedule.FillDays | src/lib/api/slots/index.ts:56-61 | every visited day gets a key (empty if new); existing lists are untouched; the key list is the old one followed by the newly added days in visiting order |
| SlotSchedule.AddDay | src/lib/api/slots/index.ts:58-60 | a day without a key gets an empty list and goes last in the key list; a day with one is left alone |
| SlotSchedule.AddedDaysMembers | src/lib/api/slots/index.ts:56-61 | the keys the loop adds are exactly the visited days that were not keys already |
| SlotSchedule.AddedDaysAscend | src/lib/api/slots/index.ts:56-61 | the keys the loop adds ascend strictly |
| SlotSchedule.DayKeysOnceEach | src/lib/api/slots/index.ts:46-61 | the result's key list names each day once: the rows' days first, then the added days ascending, together exactly the result's days |
| SlotSchedule.FirstSameClock | src/lib/api/slots/index.ts:66-69 | the first row of the day with the same hour and minute, with no earlier one |
| SlotSchedule.OverlayIsView | src/lib/api/slots/index.ts:65-75 | the overlay is a full eight-entry view: each position shows the first same-clock stored row, else the available generated slot |
| SlotSchedule.OffHourRowsDropped | src/lib/api/slots/index.ts:65-75 | a stored row that starts off the hour or outside 09:00 to 16:00 never appears in the view |
| SlotSchedule.OverlayDays | src/lib/api/slots/index.ts:64-79 | the set of keys is unchanged and every key maps to the view of its day |
| SlotSchedule.OverlayDay | src/lib/api/slots/index.ts:65-75 | one day's entry is the view of that day: the generated grid with the day's stored rows laid over it |
| SlotSchedule.GetAllSlotsByDate | src/lib/api/slots/index.ts:39-82 | the keys are the days of the rows in `[from, to]` plus every day the loop visits, listed in the record's key order (first-row order, then the added days); each holds exactly eight entries as the overlay rule says |
| SlotResolver.Resolve | src/lib/api/slots/index.ts:96-133 | 'Invalid options' iff no id and a field is missing; a throw iff an id is given and a field is missing; the only refusals are 'Invalid options' and 'Slot not available.'; the slot table changes only when a slot is created |
| SlotResolver.FindOrCreateSlot | src/lib/api/slots/index.ts:85-134 | the store's slot table and the result are those of `Resolve` with a fresh id; the appointment table is unchanged |
| SlotResolver.ResolveOutcomes | src/lib/api/slots/index.ts:100-132 | a reused slot is stored, available and in the window; 'Slot not available.' only when an unavailable stored slot is in the window; a created slot is exactly the requested one (unavailable, one hour by default), appended, and without an id no stored slot was in the window |
| SlotResolver.ResolveFound | src/lib/api/slots/index.ts:104-111 | with no id, the stored match decides: reused when available, refused with 'Slot not available.' otherwise, the table unchanged |
| SlotResolver.ResolveCreates | src/lib/api/slots/index.ts:118-129 | with both instants and no match (or an id), the requested slot is appended under the fresh id and returned as new |
| SlotResolver.LookUpCopies | src/lib/api/slots/index.ts:104 | the lookup on fresh copies of the request's dates finds the first stored slot in the request's window |
| SlotResolver.CreateNewSlot | src/lib/api/slots/index.ts:119-124 | exactly one unavailable slot with the requested fields and a fresh id is appended; the other tables are unchanged |
| SlotResolver.IdAlwaysCreates | src/lib/api/slots/index.ts:100-124 | with an id, a date and a start time, a new slot is always created; the id is never looked up |
| SlotResolver.HandsOutOnlyFreeOrNewSlots | src/lib/api/slots/index.ts:106-124 | a reused slot is available; a created one is new and unavailable |
| SlotResolver.FirstMatchDecides | src/lib/api/slots/index.ts:104-111 | the first stored slot in the window decides: reused when available, refused otherwise |
| SlotResolver.AppendedMatchIsFirst | src/lib/api/slots/queries.ts:46-58 | a row appended to a table with no row in the window, and itself in the window, is what the lookup finds there |
| SlotResolver.CreatedSlotIsNextMatch | src/lib/api/slots/index.ts:104-124 | a created slot lies in its own request's window and is the first stored slot there afterwards |
| SlotResolver.RepeatAfterCreateIsRefused | src/lib/api/slots/index.ts:104-124 | repeating a request that created a slot is refused with 'Slot not available.' |
| Appointments.ResolverRequest | src/lib/api/appointments/index.ts:14-29 | a booking's options reach the resolver with no `id`, and with its date, start and end |
| Store.SetAvailabilityOfNewRow | src/lib/api/appointments/index.ts:39-44 | setting the flag of a row just appended under an unused id changes that row alone |
| Appointments.Book | src/lib/api/appointments/index.ts:23-73 | a failed booking changes nothing and carries 'Invalid options' or 'Slot not available.' |
| Appointments.BookOutcomes | src/lib/api/appointments/index.ts:23-73 | fails iff a field is missing or the first match is unavailable. On success, exactly one appointment with the slot, name, email and a newly issued tracking id is added. The slot table is unchanged with an available stored slot reused, or gains the new unavailable slot. BookReusesFreeMatch and BookCreatesWhenNoMatch say which case applies |
| Appointments.BookReusesFreeMatch | src/lib/api/appointments/index.ts:27-44 | when the first match is a free stored slot, booking adds the appointment on it and leaves the slot table as it was |
| Appointments.BookCreatesWhenNoMatch | src/lib/api/appointments/index.ts:27-44 | when no stored slot is in the window, booking succeeds on the requested slot, appended unavailable under the fresh id (one hour long when no end time is given) |
| Appointments.BookAppointment | src/lib/api/appointments/index.ts:23-73 | the store moves exactly as `Book` says and stays valid |
| Appointments.BookKeepsValid | src/lib/api/appointments/index.ts:27-44 | booking keeps ids and tracking ids unique and every appointment on a stored slot |
| Appointments.BookIgnoresSlotId | src/lib/api/appointments/index.ts:14-29 | the `slotId` option plays no part in a booking |
| Appointments.BookedNewSlotIsTaken | src/lib/api/appointments/index.ts:39-44 | after a booking that created its slot, the same request is refused |
| Appointments.NatToString | src/lib/api/appointments/index.ts:90 | decimal digits without leading zeros |
| Appointments.ParseNatToString | src/lib/api/appointments/index.ts:90 | the printed digits read back as the number |
| Appointments.NatToStringInjective | src/lib/api/appointments/index.ts:90 | different natural numbers print differently |
| Appointments.IntToString | src/lib/api/appointments/index.ts:90 | a template-string number starts with '-' exactly when negative |
| Appointments.IntToStringInjective | src/lib/api/appointments/index.ts:90 | different numbers print differently |
| Appointments.NotFoundMessage | src/lib/api/appointments/index.ts:90 | the not-found error starts with its fixed wording |
| Appointments.NotFoundMessageNamesTheId | src/lib/api/appointments/index.ts:89-91 | the not-found error names the tracking id: different ids give different messages |
| Appointments.Cancel | src/lib/api/appointments/index.ts:75-130 | fails, naming the id and changing nothing, iff no appointment has that tracking id and exact email. Otherwise that appointment is removed, its slot becomes available, every other row is kept, and the deleted record is returned |
| Appointments.CancelAppointmentByTrackingId | src/lib/api/appointments/index.ts:75-130 | the store moves exactly as `Cancel` says and stays valid |
| Appointments.CancelKeepsValid | src/lib/api/appointments/index.ts:94-105 | cancelling keeps the store valid |
| Appointments.CancelUndoesBook | src/lib/api/appointments/index.ts:33-105 | cancelling what was just booked succeeds, restores the appointment table and frees the slot |
| Appointments.CancelReleasesNewSlot | src/lib/api/appointments/index.ts:39-105 | cancelling a booking that created its slot leaves that slot stored and available, and the tracking id stays issued |
| Appointments.RebookAfterCancel | src/lib/api/appointments/index.ts:23-105 | book, cancel, book the same time again: the second booking succeeds on the same slot with another tracking id, whether the first booking created its slot or reused a free stored one |
| Appointments.TargetRequest | src/lib/api/appointments/index.ts:180-183 | reschedule asks the resolver with no id and no end time |
| Appointments.Reschedule | src/lib/api/appointments/index.ts:155-211 | every failure gives 'Failed to reschedule your appointment' and changes nothing, and an empty record is never returned. On success the found appointment is returned as it was before the update, only its slot id changes, to a stored slot, and no other appointment changes |
| Appointments.RescheduleFailsIff | src/lib/api/appointments/index.ts:165-185 | a reschedule fails exactly when no appointment has that tracking id and email, or the first stored slot in the new window is unavailable |
| Appointments.RescheduleOntoStoredSlot | src/lib/api/appointments/index.ts:180-196 | with a free first match, the appointment is pointed at that slot and the slot table is unchanged |
| Appointments.RescheduleOntoNewSlot | src/lib/api/appointments/index.ts:180-196 | with no stored match, a one-hour unavailable slot is appended under the fresh id, the old slot is made available, and the appointment is pointed at the new slot |
| Appointments.RescheduleAppointment | src/lib/api/appointments/index.ts:155-211 | the store moves exactly as `Reschedule` says (so as the three lemmas above describe) and stays valid |
| Appointments.RescheduleKeepsValid | src/lib/api/appointments/index.ts:187-196 | rescheduling keeps the store valid |
| Appointments.RescheduleKeepsTrackingId | src/lib/api/appointments/index.ts:193-196 | every appointment after a reschedule is one from before with at most its slot id changed |
| Appointments.UnfinishedVariantNeverReschedules | src/lib/api/appointments/index.ts:139-152 | the unfinished variant changes nothing and reports an empty record, which `rescheduleAppointment` never answers |
| Authorization.Split | src/lib/auth/authorization.ts:4 | `split(' ')` gives at least one piece, none containing a space |
| Authorization.JoinSplit | src/lib/auth/authorization.ts:4 | joining the pieces with the separator gives back the header |
| Authorization.SplitJoin | src/lib/auth/authorization.ts:4 | splitting a join of space-free pieces gives back the pieces |
| Authorization.LeadingSpaces | src/lib/auth/authorization.ts:4 | the length of the longest white-space prefix |
| Authorization.TrailingSpaces | src/lib/auth/authorization.ts:4 | the length of the longest white-space suffix |
| Authorization.Trim | src/lib/auth/authorization.ts:4 | `trim()` is a piece of the input with only white space cut off, its ends are not white space, and it is empty iff the input is all white space |
| Authorization.TrimPadding | src/lib/auth/authorization.ts:4 | trimming removes white-space padding and nothing else |
| Authorization.AuthorizeRequest | src/lib/auth/authorization.ts:2-15 | 401 exactly when the token is missing or empty; 403 exactly when there is a non-empty token that is not the configured key; through exactly when a configured non-empty key equals the token |
| Authorization.BearerHeader | src/lib/auth/authorization.ts:3-14 | `<scheme> <key>` yields the key as token and passes iff it is the configured key, else 403 |
| Authorization.NoSpaceIsUnauthorized | src/lib/auth/authorization.ts:4-8 | a header without a space yields 401 |
| Authorization.DoubleSpaceIsUnauthorized | src/lib/auth/authorization.ts:4-8 | two spaces after the scheme make the token empty: 401 |
| Authorization.NoKeyAllowsNothing | src/lib/auth/authorization.ts:10-12 | with no key configured nothing passes |
| Authorization.UnauthorizedBeforeForbidden | src/lib/auth/authorization.ts:6-12 | a request without a token gets 401 whatever the key |
| Reservations.TakeKeepsTaken | src/lib/api/appointments/index.ts:40-43 | marking a slot unavailable adds it to the set of taken slots |
| Reservations.ReleaseKeepsTaken | src/lib/api/appointments/index.ts:102-105 | marking a slot available removes it from the taken set and nothing else |
| Reservations.BookCanDoubleBook | src/lib/api/appointments/index.ts:39-44 | as written, two bookings of a free stored slot both succeed on it, leaving it available and held twice |
| Reservations.DoubleBookingExample | src/lib/api/appointments/index.ts:39-44 | two 09:00 bookings against one free 09:00 slot both land on it |
| Reservations.RescheduleOntoFreeSlotLeaks | src/lib/api/appointments/index.ts:187-196 | as written, moving onto a free stored slot leaves it available though held, and the old slot unavailable though nobody holds it |
| Reservations.BookReserving | src/lib/api/appointments/index.ts:39-44 | corrected booking: after a successful booking every row of the booked slot is unavailable |
| Reservations.BookReservingAnswersAsBook | src/lib/api/appointments/index.ts:23-73 | the corrected booking gives the same outcome as `Book` and leaves the same appointment table and issued tracking ids; only the slot table can differ |
| Reservations.RescheduleReleasing | src/lib/api/appointments/index.ts:187-196 | corrected reschedule: the same outcome as `Reschedule` |
| Reservations.RescheduleReleasingMoves | src/lib/api/appointments/index.ts:180-196 | on success the appointment holds the resolved slot, every row of it is unavailable, every row of the old slot is available, and only those two slots' flags change |
| Reservations.ReleaseThenTake | src/lib/api/appointments/index.ts:187-196 | releasing one slot and then taking another changes only those two slots' flags, leaving the taken one unavailable |
| Reservations.BookReservingKeepsReserved | src/lib/api/appointments/index.ts:39-44 | the corrected booking keeps every held slot unavailable and every slot held at most once |
| Reservations.CancelKeepsReserved | src/lib/api/appointments/index.ts:94-105 | cancelling keeps that rule |
| Reservations.MoveKeepsReserved | src/lib/api/appointments/index.ts:187-196 | releasing a holder's slot, taking a free one and moving the holder there keeps that rule |
| Reservations.ResolvedSlotUnheld | src/lib/api/slots/index.ts:100-132 | the slot the resolver hands out is held by no appointment, and every held slot stays unavailable in the table it returns |
| Reservations.TakeKeepsReserved | src/lib/api/appointments/index.ts:33-44 | taking an unheld slot and adding one appointment on it keeps the rule |
| Reservations.RescheduleReleasingKeepsReserved | src/lib/api/appointments/index.ts:187-196 | the corrected reschedule keeps that rule |
| Reservations.BookReservingRefusesRepeat | src/lib/api/appointments/index.ts:39-44 | after a corrected booking, the same request is refused with 'Slot not available.' |
| Reservations.BookReservingTakesMatch | src/lib/api/appointments/index.ts:39-44 | after a corrected booking, the first slot in the request's window is unavailable |
| Reservations.TakingKeepsFirstMatch | src/lib/api/slots/queries.ts:46-58 | taking the first slot in a window leaves it the first match there, now unavailable |

## Left out

- Email: the confirmation and cancellation mails are fire-and-forget I/O with no effect on the store.
- Transactions and concurrency: each workflow is one atomic step. Not modelled are the un-awaited transaction promise in booking, and `createAppointment` using the global client instead of the transaction handle. Interleaving of concurrent requests is not modelled either.
- Local time: instants are read in one fixed zone without daylight-saving changes. `toDateString()` keys are day numbers, and invalid `Date`s are not modelled.
- `formatSlotTime`, `formatSlotDate` and `getSlots`: locale formatting and an unfiltered listing, with nothing to prove.
- Header lookup: `headers.get('Authorization')` is a parameter. Header-name case folding and combining repeated headers are not modelled. `process.env.API_KEY` is a parameter too.
- Identifiers: cuid slot and appointment ids, and the autoincrement tracking id, are modelled as any value not used before. The zod schema in prisma/zod/appointment.ts lists `trackingId` as required, although `createAppointment` passes none. Its schema import `@/zodAutoGenSchemas` is not part of this model, so the model follows the database, which assigns the tracking id.
- Input validation: names and emails are not validated (the code does not validate them). `slotIdSchema.parse` in `getSlotById` is not modelled.
- Unreachable paths: the error paths for a failed `createSlot` ('Failed to create slot'), a missing created appointment, and a failed delete or update test values that the store always provides. `if (!updateAppointment)` in `rescheduleAppointment` tests the imported function `updateAppointment`, not the update's result, so it is always truthy. None of these paths is modelled.
- SlotQueries.GetSlotByDateAndTime: requires the two `Date` arguments to be distinct objects, so aliasing is not modelled. `findOrCreateSlot` passes two fresh copies, and the bot webhook (src/app/api/webhooks/bot/route.ts:128) passes its own `date` and a fresh `new Date(time)`, so both callers meet the requirement.
- Row order: the `findFirst` and `findMany` queries (queries.ts:26,46; appointments/index.ts:80,165) have no `orderBy`, so the database may return rows in any order. The model fixes it to table order. SlotQueries.FirstInWindow, SlotQueries.FindSlotIn, SlotQueries.FirstMatchIs, SlotQueries.FlagsKeepFirstMatch, SlotResolver.FirstMatchDecides, SlotResolver.AppendedMatchIsFirst, SlotResolver.CreatedSlotIsNextMatch, Store.FirstAppointment, Appointments.BookReusesFreeMatch, Appointments.RebookAfterCancel, Reservations.BookReservingRefusesRepeat, Reservations.BookReservingTakesMatch and Reservations.TakingKeepsFirstMatch depend on that choice. The order-free facts are ResolveOutcomes (a reused or refused slot is some stored slot in the window) and FirstAppointmentIsTheOne (with unique tracking ids only one row can match).
- Appointments.RescheduleAppointment1: the unfinished stub carries no contract of its own; `UnfinishedVariantNeverReschedules` states what it does.
- SlotResolver.Resolve: an error thrown by `createSlot` for an id without a date or start time is the single outcome `Threw`; its message is not modelled.

## Findings

| source | as written | input that shows it | evidently intended | confidence | as-written member | corrected member |
|---|---|---|---|---|---|---|
| src/lib/api/appointments/index.ts:39-44 | the slot is marked unavailable only when the resolver just created it; a reused stored slot stays available | a store with one available slot at 09:00 on a day, and two bookings for 09:00 that day: both succeed on that slot | every booked slot is made unavailable, so a second booking of it is refused | high, not executed | Reservations.BookCanDoubleBook, Reservations.DoubleBookingExample | Reservations.BookReserving, Reservations.BookReservingKeepsReserved, Reservations.BookReservingRefusesRepeat |
| src/lib/api/appointments/index.ts:187-196 | the old slot is released only when the new slot was just created; the new slot is never marked unavailable | an appointment on slot A, and a reschedule to a time where an available stored slot B exists: B stays available though held, and A stays unavailable though free | release A and take B on every successful reschedule | high, not executed | Reservations.RescheduleOntoFreeSlotLeaks | Reservations.RescheduleReleasing, Reservations.RescheduleReleasingMoves, Reservations.RescheduleReleasingKeepsReserved |
