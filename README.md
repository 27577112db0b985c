# healthQue core, modelled in Dafny

healthQue is a clinic-queue application: an Express backend over MySQL and a
React Native (web) frontend. This project models the parts of it whose
behaviour is decided by the code itself rather than by the database or the
screen layout, and proves what that code promises about them.

**The doctor off-day engine** is the centre of the model. It decides whether a
doctor is off or working on a calendar day, and has three parts:

- the off-day table and its store functions (`offday_store.dfy`): listing by
  doctor, type and date range; the keyed insert-or-update; soft delete; and
  the status update;
- the request handlers that write to it (`offday_controller.dfy`): the
  owner-or-admin rule, payload defaults, the off/working toggle, and
  set/unset by date;
- the dashboard that reads it back (`dashboard.dfy`, `calendar.dfy`): the fold
  that turns the rows into "off on this day", the day press, the requests the
  confirm dialog sends, and the upcoming-appointments count.

The table is a class whose methods change it in place. The handlers are
methods on that class, proved against specification functions. The
dashboard's fold is a method with nested loops, proved equal to a function
whose properties are lemmas.

**The smaller cores:**

- clinic schedule editing: overlap checks on `HH:MM` ranges, normalisation,
  repeat-weekly copying, 12-hour formatting and the CSV export
  (`clinics_schedule.dfy`, `add_clinic.dfy`);
- the doctor, appointment and patient tables: client-side search, sort,
  paging and the CSV export (`doctors_screen.dfy`, `appointments_screen.dfy`,
  `patients_screen.dfy`, `client_table.dfy`);
- the in-memory doctor directory (`doctor_directory.dfy`);
- the appointment handlers and the role guard (`appointment_controller.dfy`,
  `require_role.dfy`);
- the migration runner (`migrate.dfy`, `migrate_runner.dfy`);
- the development debug bus (`dev_debug.dfy`);
- the argument parser of the patient-creation script (`argv.dfy`);
- the bracket-checking script (`syntax_scan.dfy`).

**Shared modules** restate the JavaScript built-ins the code relies on. They
cover truthiness, `String`, `Number` on integer text, `toLowerCase`, `trim`,
`split`/`join`, string `<`, the stable `Array.prototype.sort`, `filter` and
`slice` (`js_value.dfy`, `js_text.dfy`, `js_array.dfy`, `sorting.dfy`,
`paging.dfy`). They also cover dates as day numbers (`dates.dfy`: day 0 is
1970-01-01 and the weekday follows `getDay`, 0 = Sunday) and RFC 4180
comma-separated text with a reader (`csv.dfy`).

Where the code and its intent part ways, the model keeps both. It states the
code as written with a lemma that exhibits the difference, and states the
intended behaviour proved. The intended version is the one the rest of the
model builds on (see "Findings").

## Model

| member | source | states |
|---|---|---|
| OffDayStore.ListOffDays | healthQue-backend/models/doctorModel.js:372-383 | the rows returned are exactly the table rows that pass the WHERE clause (doctor, optional type, optional overlap with [from, to]), never more rows than the table holds |
| OffDayStore.ListedRowsMatchFilters | healthQue-backend/models/doctorModel.js:375-376 | every listed row belongs to the requested doctor and, when a non-empty type is given, has that type |
| OffDayStore.ListedWithRange | healthQue-backend/models/doctorModel.js:378-381 | with both bounds a dated row is listed exactly when it overlaps [from, to] (a missing end date is open-ended), and every weekly rule of the doctor is listed whatever its weekday |
| OffDayStore.ListedWithoutRange | healthQue-backend/models/doctorModel.js:378 | with either bound missing no date filter applies: every row of the doctor of the requested type is listed |
| OffDayStore.GetOffDayById | healthQue-backend/models/doctorModel.js:416-422 | a row found has the requested id and is in the table; nothing found means no row has that id |
| OffDayStore.GetByIdAt | healthQue-backend/models/doctorModel.js:418 | in a table with distinct ids, looking up the id of the row at any position returns that very row |
| OffDayStore.FindKey | healthQue-backend/models/doctorModel.js:392 | the duplicate-key probe: it finds a row holding the key, or reports that no row holds it |
| OffDayStore.UpsertKeepsValid | healthQue-backend/models/doctorModel.js:392-394 | INSERT ... ON DUPLICATE KEY UPDATE keeps ids positive, distinct and below the AUTO_INCREMENT counter, and keeps the unique keys unique |
| OffDayStore.UpsertStores | healthQue-backend/models/doctorModel.js:392-396 | after the upsert exactly one row holds the key and it holds the written values; an existing row keeps its id and start date, otherwise a fresh row with the next id is appended; rows with other keys are untouched |
| OffDayStore.UpsertTwice | healthQue-backend/models/doctorModel.js:392 | two upserts with the same key add at most one row, keep every id, and leave a single row for the key holding the second call's values |
| OffDayStore.ReLookupAsWritten | healthQue-backend/models/doctorModel.js:397-405 | the follow-up lookup of createOffDay as written returns, if anything, the id of a row of the table |
| OffDayStore.ReLookup | healthQue-backend/models/doctorModel.js:397-405 | the corrected follow-up lookup returns, if anything, the id of a row holding the key that was written |
| OffDayStore.CreateReturnsWrittenRow | healthQue-backend/models/doctorModel.js:389-411 | createOffDay always returns a row of the new table that holds the normalized values and carries the written key |
| OffDayStore.CreateInserts | healthQue-backend/models/doctorModel.js:392-409 | with no row holding the key, createOffDay appends a fresh row with the next id and returns exactly that row |
| OffDayStore.CreateUpdates | healthQue-backend/models/doctorModel.js:392-409 | with a row holding the key, createOffDay rewrites that row in place (same id and start date, new values) and returns it, leaving the counter alone |
| OffDayStore.FindKeyUnique | healthQue-backend/models/doctorModel.js:399-404 | in a table with unique keys the row the lookup finds for a key is the only one holding it |
| OffDayStore.RefreshKeepsKey | healthQue-backend/models/doctorModel.js:392 | the ON DUPLICATE KEY UPDATE of the row holding the key leaves its key unchanged and the row holding the written values |
| OffDayStore.CreateDefaults | healthQue-backend/models/doctorModel.js:389-393 | with only doctor and start date given, the created row is a dated, open-ended, 'scheduled' row with status 'off' |
| OffDayStore.CreateAsWrittenReturnsOtherRow | healthQue-backend/models/doctorModel.js:399-401 | a concrete valid table where createOffDay as written updates a dated row but returns a weekly rule of the same doctor starting on that day, while the corrected lookup returns the updated row |
| OffDayStore.SetStatus | healthQue-backend/models/doctorModel.js:427-439 | UPDATE ... SET status WHERE id: the rows with the id get the new status, every other row is unchanged, the length is kept |
| OffDayStore.SetStatusKeepsValid | healthQue-backend/models/doctorModel.js:427-439 | the status update keeps the table's ids and keys valid |
| OffDayStore.SetStatusFound | healthQue-backend/models/doctorModel.js:439-442 | when the update matched a row, reading that id back returns the old row with only the status replaced |
| OffDayStore.DeleteIsSoft | healthQue-backend/models/doctorModel.js:424-431 | deleteOffDay removes nothing: it reports success exactly when the id exists, then the row reads back as before with status 'working', and every other row is unchanged |
| OffDayStore.UpdateStatusOnlyStatus | healthQue-backend/models/doctorModel.js:437-447 | updateOffDayStatus returns the updated row exactly when the id exists, changes nothing but the status of that row, and returns the old row with the new status |
| OffDayStore.OffDayTable.CreateOffDay | healthQue-backend/models/doctorModel.js:389-414 | the table held in place keeps its ids and keys valid, moves to the state Create gives, and returns a row of the new table holding the normalized values |
| OffDayStore.OffDayTable.DeleteOffDay | healthQue-backend/models/doctorModel.js:424-431 | the table held in place keeps its ids and keys valid and moves to the state Delete gives, reporting whether a row matched |
| OffDayStore.OffDayTable.UpdateOffDayStatus | healthQue-backend/models/doctorModel.js:437-447 | the table held in place keeps its ids and keys valid and moves to the state UpdateStatus gives, returning the updated row or nothing |
| OffDayController.Authorize | healthQue-backend/controllers/doctorController.js:106-121 | a request on a doctor's off-days goes through exactly for an admin or for a doctor whom the users table links to that doctor (a linked id of 0 counts as none); everyone else gets 403 |
| OffDayController.GetOffDays | healthQue-backend/controllers/doctorController.js:100-125 | no user gives 401; the reply is 200 exactly when the caller is authorized, and then its body is exactly `listOffDays` of the doctor id and the query, so only that doctor's rows from the table |
| OffDayController.AddPayloadDefaults | healthQue-backend/controllers/doctorController.js:153-163 | a body with only a start date stores a dated 'off' row for that doctor and day: no end date, not weekly, no weekday, type 'scheduled', no reason |
| OffDayController.WeeklyFlagOfValidBody | healthQue-backend/controllers/doctorController.js:153-163 | of the `is_recurring_weekly` values the route lets through, `true`, `1` and every text, 'false' and '0' included, store a weekly rule, while `false`, `0` and an absent flag store a dated row |
| OffDayController.AddOffDay | healthQue-backend/controllers/doctorController.js:132-164 | a body failing the route's validators gives 400, no user 401, an unauthorized caller 403, each with the table unchanged; otherwise 201 with the row createOffDay returns, the table moving as createOffDay moves it |
| OffDayController.DeleteAsWrittenRefusesOwner | healthQue-backend/controllers/doctorController.js:178 | a doctor whose token carries no doctor id (as every login token) is refused deletion of a row of their own doctor, whom the owner rule admits |
| OffDayController.DeleteOffDay | healthQue-backend/controllers/doctorController.js:171-182 | no user gives 401, an unknown id 404, a caller the owner rule refuses 403, each with the table unchanged; an allowed caller gets 200 and the row is marked 'working' as deleteOffDay does |
| OffDayController.ToggleAsWrittenAdmitsStranger | healthQue-backend/controllers/doctorController.js:199-200 | a concrete doctor whose user id equals another doctor's id passes the toggle check as written, although the owner rule refuses them |
| OffDayController.ToggleRefusesStranger | healthQue-backend/controllers/doctorController.js:196-221 | with the owner rule, a caller not allowed on the row gets 403 and the table is unchanged |
| OffDayController.Wanted | healthQue-backend/controllers/doctorController.js:222 | without a status in the body the toggle writes 'working' exactly when the row is 'off', and otherwise 'off' |
| OffDayController.ToggleUnknownId | healthQue-backend/controllers/doctorController.js:194-195 | an id no row has is answered 404 with the table unchanged |
| OffDayController.ToggleRejectsOtherStatus | healthQue-backend/controllers/doctorController.js:223 | a status other than 'off' and 'working' is never written: the table is unchanged and the reply is 400 (or 401/403/404 before that check) |
| OffDayController.ToggleAllowed | healthQue-backend/controllers/doctorController.js:222-224 | an allowed toggle writes the wanted status to the row with that id and changes nothing else |
| OffDayController.ToggleTwiceRestores | healthQue-backend/controllers/doctorController.js:222-224 | two toggles without a body status flip an 'off' or 'working' row and then restore the table exactly |
| OffDayController.ToggleOffDayStatus | healthQue-backend/controllers/doctorController.js:189-226 | the handler over the table held in place keeps it valid and replies and writes as Toggle says |
| OffDayController.UnsetAll | healthQue-backend/controllers/doctorController.js:267-278 | the unset loop collects one result per visited row |
| OffDayController.SetOffDayByDate | healthQue-backend/controllers/doctorController.js:234-279 | the handler over the table held in place keeps it valid and replies and writes as SetByDate says |
| OffDayController.SetByDateNeedsDate | healthQue-backend/controllers/doctorController.js:256 | an authorized request without a date is answered 400 'Missing date' and writes nothing |
| OffDayController.SetWritesOneDayOff | healthQue-backend/controllers/doctorController.js:255-261 | 'set', or no action at all, leaves a one-day dated 'off' row for the doctor and the date, and only one dated row for that doctor and date |
| OffDayController.OtherActionUnsets | healthQue-backend/controllers/doctorController.js:255-266 | any action sent other than 'set', `null` and non-text values included, behaves exactly like 'unset'; only an absent action takes the default |
| OffDayController.FlipStep | healthQue-backend/controllers/doctorController.js:273-276 | marking a visited dated row 'working' keeps the unset loop's invariant |
| OffDayController.OverrideStep | healthQue-backend/controllers/doctorController.js:269-272 | writing the one-day 'working' override for a visited weekly rule keeps the unset loop's invariant |
| OffDayController.UnsetAllInv | healthQue-backend/controllers/doctorController.js:266-278 | after any number of passes of the unset loop its invariant holds: ids and keys valid, weekly rules untouched, visited dated rows 'working', at most the override row added |
| OffDayController.UnsetIsSetByDate | healthQue-backend/controllers/doctorController.js:264-279 | an authorized 'unset' with a date answers 200 with one result per row the overlap listing returns |
| OffDayController.UnsetEvolves | healthQue-backend/controllers/doctorController.js:266-278 | the table a whole 'unset' leaves satisfies the loop invariant for all visited rows |
| OffDayController.UnsetKeepsRules | healthQue-backend/controllers/doctorController.js:266-278 | 'unset' keeps the table valid, never changes a weekly rule, and adds at most one row: a dated 'working' row of the doctor starting on the date |
| OffDayController.UnsetOverridesRules | healthQue-backend/controllers/doctorController.js:269-272 | when the doctor has any weekly rule, whatever its weekday, 'unset' leaves a one-day 'working' row for the date, and only one dated row for that doctor and date |
| OffDayController.UnsetClearsDatedRows | healthQue-backend/controllers/doctorController.js:273-276 | after 'unset' every dated row of the doctor covering the date is 'working', and one not starting on the date differs from before only in its status |
| OffDayController.CoveredRowFlipped | healthQue-backend/controllers/doctorController.js:273-276 | a row the overlap listing found is 'working' once the loop is done, and unless it starts on the date only its status changed |
| Dashboard.OffOn | healthQue-frontend/src/screens/DashboardScreen.js:189-213 | the rows that are 'off' on a day: exactly the fetched rows that apply to it and have status 'off' |
| Dashboard.LastReset | healthQue-frontend/src/screens/DashboardScreen.js:189-213 | the point just after the last 'working' row that applies to the day; no later row is a 'working' row for it |
| Dashboard.DayListAfterLastReset | healthQue-frontend/src/screens/DashboardScreen.js:189-213 | the list loadOffDays builds for a day is the 'off' rows for it that come after the last 'working' row for it, in fetch order |
| Dashboard.NotResetStep | healthQue-frontend/src/screens/DashboardScreen.js:189-213 | a row that is not a 'working' row for the day adds itself to the day's list when it is 'off' and otherwise leaves the list alone |
| Dashboard.AppendedOffRowShows | healthQue-frontend/src/screens/DashboardScreen.js:187 | an 'off' row applying to a day, fetched last, always ends the day's list |
| Dashboard.DayListDependsOnOrder | healthQue-frontend/src/screens/DashboardScreen.js:206-211 | for a concrete 'working' row and 'off' row on the same day, the day shows off when the 'working' row comes first and clear when it comes second |
| Dashboard.Resolve | healthQue-frontend/src/screens/DashboardScreen.js:188 | the resolution the comment describes: a day on which some 'working' row applies is clear, otherwise it lists its 'off' rows |
| Dashboard.ResolveIgnoresOrder | healthQue-frontend/src/screens/DashboardScreen.js:188 | any rearrangement of the fetched rows resolves to a clear day exactly when the original does, and to the same rows |
| Dashboard.DayListWithoutOverride | healthQue-frontend/src/screens/DashboardScreen.js:189-213 | when no 'working' row applies to a day, the fold and the order-free resolution agree |
| Dashboard.FoldOneMore | healthQue-frontend/src/screens/DashboardScreen.js:189-213 | one more fetched row changes each day's list by the row's effect alone, and marks the day exactly when it is an 'off' or 'working' row applying to it |
| Dashboard.ApplyRow | healthQue-frontend/src/screens/DashboardScreen.js:190-212 | the inner loop over the seven days applies one row's effect to every day of the window, adds only window days, and marks a day exactly when the row applies to it with status 'off' or 'working' |
| Dashboard.LoadOffDays | healthQue-frontend/src/screens/DashboardScreen.js:173-215 | the map holds only window days, holds a day exactly when some row marked it, and gives each window day the list of the in-order fold |
| Dashboard.OnDayPress | healthQue-frontend/src/screens/DashboardScreen.js:228-233 | a press offers 'unset' with the day's rows exactly when the map lists rows for the day, and 'set' otherwise |
| Dashboard.PressFollowsFold | healthQue-frontend/src/screens/DashboardScreen.js:226-233 | on the map loadOffDays builds, a press offers 'unset' exactly when the fold leaves rows for the day, and those are fetched 'off' rows applying to the day |
| Dashboard.CountOn | healthQue-frontend/src/screens/DashboardScreen.js:142-150 | a day's count never exceeds the number of appointments fetched |
| Dashboard.InFirstDays | healthQue-frontend/src/screens/DashboardScreen.js:142-150 | the appointments falling in the first days of the window are at most all of them |
| Dashboard.WindowTotalStep | healthQue-frontend/src/screens/DashboardScreen.js:142-149 | one more appointment raises the window's total by one exactly when its day is in the window |
| Dashboard.WindowTotalCountsItems | healthQue-frontend/src/screens/DashboardScreen.js:142-150 | the per-day counts summed over the window count each appointment in the window exactly once |
| Dashboard.UpcomingBounded | healthQue-frontend/src/screens/DashboardScreen.js:135-150 | the seven counts never add up to more than the appointments fetched |
| Dashboard.LoadUpcoming | healthQue-frontend/src/screens/DashboardScreen.js:129-151 | loadUpcoming fills a fresh array of seven counters, the k-th holding the number of appointments on day today + k |
| CalendarFlow.ConfirmSetRequest | healthQue-frontend/src/screens/DashboardScreen.js:256-261 | the confirm button's 'set' branch is addOffDay on the body the screen sends: 201 with the row createOffDay writes for an authorized doctor, the table unchanged otherwise |
| CalendarFlow.SetMarksDayOff | healthQue-frontend/src/screens/DashboardScreen.js:256-261 | the 'set' POST passes the route's checks and leaves a one-day 'emergency' 'off' row for the date, reason 'Set from calendar', that is among the day's 'off' rows and is shown for the day unless a 'working' row applies to it |
| CalendarFlow.ConfirmUnsetRequests | healthQue-frontend/src/screens/DashboardScreen.js:262-284 | the confirm button's 'unset' branch runs the date PATCH and then one status PATCH per shown row on the table, keeping it valid |
| CalendarFlow.ToggleTouchesOnlyId | healthQue-backend/controllers/doctorController.js:222-224 | a status PATCH keeps the table's length and changes only the status of rows with the patched id |
| CalendarFlow.UnsetAsWrittenAppends | healthQue-frontend/src/screens/DashboardScreen.js:265-268 | with no dated row for the day, the screen's date PATCH (no action, so 'set') appends a fresh one-day 'off' row |
| CalendarFlow.UnsetAsWrittenLeavesDayOff | healthQue-frontend/src/screens/DashboardScreen.js:263-284 | when no dated row starts on the day, confirming 'unset' as written leaves the day listed as off once the dashboard reloads, whatever rows were shown |
| CalendarFlow.FlipAllCancels | healthQue-frontend/src/screens/DashboardScreen.js:273-284 | the per-row PATCHes keep the table valid and leave a watched row unchanged but for its status, which is 'working' when the row was among those shown |
| CalendarFlow.UnsetAsWrittenCancelsRule | healthQue-frontend/src/screens/DashboardScreen.js:273-284 | a shown weekly rule of the doctor is itself set to 'working' by the per-row PATCHes, so it stops applying on every week, not only on the day |
| CalendarFlow.UnsetClearsDay | healthQue-frontend/src/screens/DashboardScreen.js:263-268 | a date PATCH that names the 'unset' action leaves the day clear under the order-free resolution of the rows listed for any window holding it |
| CalendarFlow.ClearedByOverride | healthQue-backend/controllers/doctorController.js:269-272 | when the doctor has a weekly rule, 'unset' leaves the day clear through the one-day 'working' override |
| CalendarFlow.ClearedWithoutRule | healthQue-backend/controllers/doctorController.js:273-276 | when no weekly rule of the doctor is 'off' on the day, 'unset' leaves the day clear because every dated row covering it turns 'working' |
| CalendarFlow.UnsetKeepsWeeklyRules | healthQue-frontend/src/screens/DashboardScreen.js:263-268 | an 'unset' sent this way leaves every weekly rule exactly as it was and removes no row |
| CalendarFlow.ListedLast | healthQue-backend/models/doctorModel.js:372-383 | a row the listing selects, added last to the table, is listed last, after everything listed before |
| CalendarFlow.ToggleKeepsValid | healthQue-backend/controllers/doctorController.js:189-226 | a toggle, whatever its outcome, keeps ids and keys unique in the table |
| CalendarFlow.FlipOne | healthQue-frontend/src/screens/DashboardScreen.js:273-284 | one per-row PATCH keeps every row's fields but its status, and turns the named row to 'working' |
| ClinicsSchedule.NormalizeInput | healthQue-frontend/src/screens/ClinicsScreen.js:214 | a time input is read as at most five characters, a prefix of the trimmed input |
| ClinicsSchedule.Bound | healthQue-frontend/src/screens/ClinicsScreen.js:240-241 | the fallback chain over three texts is empty exactly when all three are, and is otherwise the first of them that is not empty |
| ClinicsSchedule.Slot | healthQue-frontend/src/screens/ClinicsScreen.js:256 | a slot the editor writes as `{ start, end }` reads back, through the start-from-s and end-to-e fallbacks, exactly the bounds it was written with |
| ClinicsSchedule.ClockMinutes | healthQue-frontend/src/screens/ClinicsScreen.js:214-219 | a time the picker writes (`HH:MM`, two digits each) passes the input normalization unchanged and reads as HH * 60 + MM minutes |
| ClinicsSchedule.OverlapsIffSharedMinute | healthQue-frontend/src/screens/ClinicsScreen.js:233 | two slots overlap exactly when some minute lies in both half-open slots, so a slot ending when another starts does not overlap it |
| ClinicsSchedule.FirstClash | healthQue-frontend/src/screens/ClinicsScreen.js:237-248 | the overlap loop stops at a stored slot, not the one being edited, that overlaps the candidate, and every slot before it other than the edited one does not |
| ClinicsSchedule.FindClash | healthQue-frontend/src/screens/ClinicsScreen.js:237-248 | the for-loop with early return finds exactly the first overlapping slot other than the edited one |
| ClinicsSchedule.Prepared | healthQue-frontend/src/screens/ClinicsScreen.js:210-212 | a day without a list gets an empty one before the checks, and the day's slots are otherwise those already stored |
| ClinicsSchedule.CheckSlot | healthQue-frontend/src/screens/ClinicsScreen.js:225-253 | the checks run in the source's order: malformed bounds, then the first overlap, then the duplicate test |
| ClinicsSchedule.NoClashIffFits | healthQue-frontend/src/screens/ClinicsScreen.js:237-248 | for well-formed bounds the overlap loop finds nothing exactly when the candidate overlaps no stored slot other than the edited one |
| ClinicsSchedule.AddRefusesBadTimes | healthQue-frontend/src/screens/ClinicsScreen.js:225-230 | a slot is refused as malformed exactly when a bound is empty or not a number, or the start is not before the end |
| ClinicsSchedule.AddReportsFirstOverlap | healthQue-frontend/src/screens/ClinicsScreen.js:237-248 | an overlap is reported exactly when the bounds are well formed and the candidate overlaps some other slot, and the reported index is the first such slot |
| ClinicsSchedule.AddAcceptsIff | healthQue-frontend/src/screens/ClinicsScreen.js:225-260 | a slot is added exactly when it fits the day and, unless a slot is being edited, no stored slot has the same start and end text |
| ClinicsSchedule.AddChangesOnlyTheDay | healthQue-frontend/src/screens/ClinicsScreen.js:255-260 | addRange changes only the selected day, and only when it adds: editing replaces the slot at the edited index, adding appends one slot |
| ClinicsSchedule.AddAcceptsPickedTimes | healthQue-frontend/src/screens/ClinicsScreen.js:214-230 | for two times from the picker the bounds check passes exactly when the start minute is before the end minute |
| ClinicsSchedule.PlacedKeepsDisjoint | healthQue-frontend/src/screens/ClinicsScreen.js:255-260 | placing a fitting slot, appended or at the edited index, keeps the day free of overlaps |
| ClinicsSchedule.AddKeepsDisjoint | healthQue-frontend/src/screens/ClinicsScreen.js:208-270 | whatever addRange decides, a day free of overlapping slots stays free of them |
| ClinicsSchedule.AddKeepsStartEnd | healthQue-frontend/src/screens/ClinicsScreen.js:255-260 | addRange writes only `{ start, end }` slots, so a day whose slots keep their bounds under `start` and `end` still does after an add |
| ClinicsSchedule.DuplicateUnreachable | healthQue-frontend/src/screens/ClinicsScreen.js:250-253 | for inputs without a vertical bar the duplicate refusal never happens: an identical slot already failed the overlap check |
| ClinicsSchedule.ReAddAfterEdit | healthQue-frontend/src/screens/ClinicsScreen.js:279-288 | saving an edited slot unchanged, its bounds loaded through the start-from-s and end-to-e fallbacks, is accepted and puts it back at its index written as `{ start, end }`; a slot already in that form leaves the schedule exactly as it was |
| ClinicsSchedule.RemoveKeepsDisjoint | healthQue-frontend/src/screens/ClinicsScreen.js:275 | removing a slot keeps a day free of overlaps |
| ClinicsSchedule.JsRem | healthQue-frontend/src/screens/ClinicsScreen.js:295 | JavaScript's remainder for a positive divisor: the sign of the dividend, magnitude below the divisor |
| ClinicsSchedule.Twelve | healthQue-frontend/src/screens/ClinicsScreen.js:295 | the hour a 12-hour clock shows lies in 1..12 and agrees with the hour of the day modulo 12 |
| ClinicsSchedule.FormatAMPMOfClock | healthQue-frontend/src/screens/ClinicsScreen.js:290-297 | a picked time is shown as its 12-hour hour, its two-digit minute and AM before noon, PM from noon on |
| ClinicsSchedule.FormatAMPMKeepsNonTimes | healthQue-frontend/src/screens/ClinicsScreen.js:290-293 | a text without ':' is not a time and is shown unchanged |
| ClinicsSchedule.Cleaned | healthQue-frontend/src/screens/ClinicsScreen.js:384-385 | a saved bound is at most five characters long |
| ClinicsSchedule.Dedup | healthQue-frontend/src/screens/ClinicsScreen.js:382-389 | de-duplication never lengthens a day and keeps a non-empty day non-empty |
| ClinicsSchedule.CollectFirst | healthQue-frontend/src/screens/ClinicsScreen.js:382-389 | the forEach filling the `seen` map yields the de-duplication of the cleaned slots |
| ClinicsSchedule.KeepFirstOfEachKey | healthQue-frontend/src/screens/ClinicsScreen.js:383-388 | the loop over the cleaned slots keeps the first slot of each start-and-end key, in first-appearance order |
| ClinicsSchedule.DedupDistinctSubset | healthQue-frontend/src/screens/ClinicsScreen.js:382-389 | de-duplication leaves one slot per key, each of them an input slot |
| ClinicsSchedule.DedupKeepsFirst | healthQue-frontend/src/screens/ClinicsScreen.js:387 | de-duplication keeps, for each key, the first slot that has it |
| ClinicsSchedule.DedupDistinct | healthQue-frontend/src/screens/ClinicsScreen.js:387 | slots whose keys are already distinct pass de-duplication unchanged |
| ClinicsSchedule.CleanedIdempotent | healthQue-frontend/src/screens/ClinicsScreen.js:384-385 | cleaning a cleaned slot changes nothing |
| ClinicsSchedule.NormalizeDay | healthQue-frontend/src/screens/ClinicsScreen.js:380-396 | a normalized day is never longer than the input and is empty exactly when the input is |
| ClinicsSchedule.NormalizeDayKeepsFirst | healthQue-frontend/src/screens/ClinicsScreen.js:380-396 | a saved day holds one slot per key, each a cleaned input slot, and for each key the first input slot that has it |
| ClinicsSchedule.NormalizeDaySorted | healthQue-frontend/src/screens/ClinicsScreen.js:391-394 | when every start reads as a number, a saved day is in ascending order of start minutes |
| ClinicsSchedule.NormalizeDayIdempotent | healthQue-frontend/src/screens/ClinicsScreen.js:380-396 | when every start reads as a number, normalizing a saved day again changes nothing |
| ClinicsSchedule.SavedSlotsClean | healthQue-frontend/src/screens/ClinicsScreen.js:384-387 | every saved slot is already clean |
| ClinicsSchedule.NormalizeSchedule | healthQue-frontend/src/screens/ClinicsScreen.js:397-404 | the sent schedule holds exactly the days that had at least one slot |
| ClinicsSchedule.RangesOfNormalized | healthQue-frontend/src/screens/ClinicsScreen.js:397-404 | each day of the sent schedule holds the normalization of that day's slots |
| ClinicsSchedule.NormalizeHours | healthQue-frontend/src/screens/ClinicsScreen.js:398-403 | the forEach over the days builds exactly the normalized schedule |
| ClinicsSchedule.Truncated | healthQue-frontend/src/screens/ClinicsScreen.js:342 | the repeat-weekly copy keeps the number of slots and writes each as `{ start, end }` from the first five characters of the `start` and `end` fields alone |
| ClinicsSchedule.CopyDays | healthQue-frontend/src/screens/ClinicsScreen.js:342 | the copy loop builds exactly the copied schedule, each ticked day receiving the truncated copy of the source day as it stands at that moment |
| ClinicsSchedule.TruncatedIdempotent | healthQue-frontend/src/screens/ClinicsScreen.js:342 | copying a copied day changes nothing |
| ClinicsSchedule.CopyFillsSelectedDays | healthQue-frontend/src/screens/ClinicsScreen.js:342 | after the copy every selected day holds the truncated copy of the source day (the copy reads only `start` and `end`) and every other day is as it was |
| ClinicsSchedule.Conflicts | healthQue-frontend/src/screens/ClinicsScreen.js:334 | the conflicts are exactly the selected days that already have slots |
| ClinicsSchedule.NormalizeTruncated | healthQue-frontend/src/screens/ClinicsScreen.js:342-352 | for a source day whose slots keep their bounds under `start` and `end`, the copied slots normalize exactly as the source day's own slots |
| ClinicsSchedule.OverwriteCopiesDay | healthQue-frontend/src/screens/ClinicsScreen.js:820-845 | the Overwrite button saves every selected day with the normalized copy of the source day and every other day with its own slots; when the source day keeps its bounds under `start` and `end` the selected days are saved exactly as the source day |
| ClinicsSchedule.RepeatWeeklySave | healthQue-frontend/src/screens/ClinicsScreen.js:329-368 | with days ticked: nothing to replicate exactly when the source day is empty; a confirmation exactly when some ticked day has slots, listing exactly those days; otherwise each ticked day is sent as the normalized copy, which equals the source day's own normalization when its bounds are under `start` and `end` |
| ClinicsSchedule.RepeatWeeklyBlanksFromTo | healthQue-frontend/src/screens/ClinicsScreen.js:340-342 | a Monday holding `{ from: 09:00, to: 10:00 }`, copied to Tuesday with repetition on, is sent as Monday 09:00-10:00 but Tuesday with one slot of empty bounds |
| ClinicsSchedule.FromToDaySaved | healthQue-frontend/src/screens/ClinicsScreen.js:380-396 | a `{ from, to }` slot is saved by normalizeDay as the `{ start, end }` slot of its times |
| ClinicsSchedule.NormalizeOne | healthQue-frontend/src/screens/ClinicsScreen.js:380-396 | a day of one slot is saved as that slot cleaned |
| ClinicsSchedule.CopiedSlots | healthQue-frontend/src/screens/ClinicsScreen.js:342 | the corrected copy reads each bound through the same start-from-s and end-to-e fallbacks as the save, cut to five characters |
| ClinicsSchedule.NormalizeCopiedSlots | healthQue-frontend/src/screens/ClinicsScreen.js:342-366 | whatever field names the source day uses, the corrected copy saves exactly as the source day does, and on a day in `{ start, end }` form it is the copy the screen makes |
| ClinicsSchedule.SourceDayTickedAsks | healthQue-frontend/src/screens/ClinicsScreen.js:334-338 | ticking the source day itself always asks to confirm the overwrite |
| ClinicsSchedule.VisibleClinics | healthQue-frontend/src/screens/ClinicsScreen.js:54-62 | a server-paged list is shown as fetched; otherwise at most ten clinics, the ones at the page's positions |
| ClinicsSchedule.EveryClinicOnItsPage | healthQue-frontend/src/screens/ClinicsScreen.js:60-61 | without server paging every clinic appears, at its position within the page its index falls in |
| ClinicsSchedule.ExportCsvReadsBack | healthQue-frontend/src/screens/ClinicsScreen.js:506-508 | reading the export back as comma-separated text gives the header and then each clinic's fields, whatever quotes, commas or line breaks they hold |
| ClinicsSchedule.ScheduleEditor.constructor | healthQue-frontend/src/screens/ClinicsScreen.js:199-201 | the editor opens on the schedule with day 'mon', empty inputs, nothing being edited and no error |
| ClinicsSchedule.ScheduleEditor.AddRange | healthQue-frontend/src/screens/ClinicsScreen.js:208-270 | the editor's state moves as the decision says: the schedule as AddResult gives, editing cleared on success, the inline error and conflicting slot set for the outcome, inputs left as they were |
| ClinicsSchedule.ScheduleEditor.RemoveRange | healthQue-frontend/src/screens/ClinicsScreen.js:272-277 | removing drops exactly the idx-th slot of the day, does nothing when the day has no list, and touches no other state |
| ClinicsSchedule.ScheduleEditor.EditRange | healthQue-frontend/src/screens/ClinicsScreen.js:279-288 | editing an existing slot loads its bounds, read through the start-from-s and end-to-e fallbacks, and its index into the inputs and selects its day; with no such slot nothing changes; the schedule itself never changes |
| AddClinic.InitialForm | healthQue-frontend/src/screens/AddClinicScreen.js:22-23 | the form opens valid, with every weekday's list empty |
| AddClinic.AddTiming | healthQue-frontend/src/screens/AddClinicScreen.js:118-120 | adding a timing appends exactly one opening time to that day's list, creating the list if needed, and leaves every other day alone |
| AddClinic.CopyTimings | healthQue-frontend/src/screens/AddClinicScreen.js:122-133 | with an empty source nothing changes; otherwise every ticked day other than the source gets the source's list and every other day keeps its own |
| AddClinic.RemoveTiming | healthQue-frontend/src/screens/AddClinicScreen.js:135 | removing drops exactly the idx-th opening time of the day (nothing when the index is out of range) and leaves the other days alone |
| AddClinic.UpdatersKeepFormValid | healthQue-frontend/src/screens/AddClinicScreen.js:118-175 | every updater the form offers (add, copy, remove, the two pickers, the day checkbox) keeps one list per weekday and picker values the pickers offer |
| AddClinic.Hours | healthQue-frontend/src/screens/AddClinicScreen.js:61-62 | the saved hours are exactly the days that have opening times, each with its list |
| AddClinic.SaveResult | healthQue-frontend/src/screens/AddClinicScreen.js:52-64 | a save stops before any request exactly when the trimmed name is empty; otherwise the request carries a slot length and patients-per-slot the pickers offer and exactly the days with opening times, each with its list |
| DoctorsScreen.CsvFields | healthQue-frontend/src/screens/DoctorsScreen.js:21-22 | each doctor exports one text per column of the header, the column's value or '' when it is falsy |
| DoctorsScreen.CsvRows | healthQue-frontend/src/screens/DoctorsScreen.js:22 | one exported row per doctor, in order |
| DoctorsScreen.Enclose | healthQue-frontend/src/screens/DoctorsScreen.js:22 | every field is written between quotes, its inner quotes left as they are |
| DoctorsScreen.QuoteCommaSplitsField | healthQue-frontend/src/screens/DoctorsScreen.js:22 | a field holding a quote, a comma and a quote is written exactly as two separate fields would be |
| DoctorsScreen.ToCsvAsWrittenMergesDoctors | healthQue-frontend/src/screens/DoctorsScreen.js:20-24 | two concrete doctors with different fields are exported as the same text, so the export as written cannot be read back |
| DoctorsScreen.ToCsvReadsBack | healthQue-frontend/src/screens/DoctorsScreen.js:20-24 | with inner quotes doubled, the export reads back as the header and then every doctor's fields, whatever quotes, commas or line breaks they hold |
| DoctorsScreen.DoctorVal | healthQue-frontend/src/screens/DoctorsScreen.js:280-287 | getDoctorVal gives the doctor's property when the doctor and the property are truthy, and '' otherwise |
| DoctorsScreen.CompareDoctorsConsistent | healthQue-frontend/src/screens/DoctorsScreen.js:288-294 | the comparator is antisymmetric, calls two doctors equal exactly when their lower-cased texts are equal, and orders by text ascending only for 'asc' and descending for any other direction, null included |
| DoctorsScreen.SortDoctorsSorted | healthQue-frontend/src/screens/DoctorsScreen.js:352 | the sorted list is a permutation of the list in which every pair is in comparator order |
| DoctorsScreen.NameMatchKeepsDoctor | healthQue-frontend/src/screens/DoctorsScreen.js:302-346 | a doctor whose name contains the search term, ignoring case, is kept by the search |
| DoctorsScreen.NameHits | healthQue-frontend/src/screens/DoctorsScreen.js:306 | a name containing the term makes the doctor's searched text hit the term |
| DoctorsScreen.TopLevelTextKeepsDoctor | healthQue-frontend/src/screens/DoctorsScreen.js:318-333 | any string among the first 51 properties of a doctor is searched, whatever its property is called |
| DoctorsScreen.TopLevelTextHits | healthQue-frontend/src/screens/DoctorsScreen.js:323-329 | a string property walked by the gather step makes the searched text hit a term it contains |
| DoctorsScreen.GatherNested | healthQue-frontend/src/screens/DoctorsScreen.js:318-322 | each level of array nesting costs one level of the walk's depth, so a value nested deeper than 5 levels is never gathered |
| DoctorsScreen.GatherOneItem | healthQue-frontend/src/screens/DoctorsScreen.js:322 | a one-item array gathers what its item gathers one level deeper |
| DoctorsScreen.GatherReadsTwentyItems | healthQue-frontend/src/screens/DoctorsScreen.js:322 | only the first 20 items of an array are walked |
| DoctorsScreen.VisibleIsRendered | healthQue-frontend/src/screens/DoctorsScreen.js:350-358 | getVisibleDoctors and the rows the table renders agree whenever no sort column is set and no doctor has a truthy 'null' property |
| DoctorsScreen.FooterMatchesPages | healthQue-frontend/src/screens/DoctorsScreen.js:476-478 | without server paging the last page the footer counts is non-empty and the one after it is empty, and the label's first number is the doctors up to and including the page shown |
| DoctorsScreen.SortHeader.constructor | healthQue-frontend/src/screens/DoctorsScreen.js:32-47 | the sort refs start null and the page at 0 |
| DoctorsScreen.SortHeader.Toggle | healthQue-frontend/src/screens/DoctorsScreen.js:161-185 | a header press sets the sort column ref to the column, the direction ref to 'asc' or the flip of the current direction for the same column, and the page to 0 |
| DoctorsScreen.SortHeader.Rendered | healthQue-frontend/src/screens/DoctorsScreen.js:439-448 | whatever was pressed, the table shows the rows in the order the server sent them, sliced to the page only without server paging, since the sort state stays null |
| DoctorDirectory.OrNull | healthQue-backend/models/doctorModel.js:117 | a truthy value is kept, any other becomes null |
| DoctorDirectory.FoundMatches | healthQue-backend/models/doctorModel.js:94-97 | the search keeps exactly the doctors of the list whose name, specialty, location and email text contains the lower-cased filter, or all of them for an empty filter |
| DoctorDirectory.SortedPage | healthQue-backend/models/doctorModel.js:98-107 | the sort keeps the number of doctors, and a page of the sorted list holds at most `limit` doctors of the list |
| DoctorDirectory.SortedPageInOrder | healthQue-backend/models/doctorModel.js:98-107 | a page of the sorted list is in the comparator's order |
| DoctorDirectory.PageKeepsOrder | healthQue-backend/models/doctorModel.js:107 | a page of a list in comparator order is in comparator order |
| DoctorDirectory.ListDoctorsResult | healthQue-backend/models/doctorModel.js:92-108 | the in-memory listing reports as total every doctor the search keeps and returns at most `limit` of them, each a doctor of the list that matches the filter |
| DoctorDirectory.ListDoctorsOrdered | healthQue-backend/models/doctorModel.js:98-104 | the returned page is in the order of the chosen property's lower-cased text, ascending unless the direction is 'desc' |
| DoctorDirectory.IdsCompareAsText | healthQue-backend/models/doctorModel.js:99-101 | ids are compared as text: doctor 10 sorts before doctor 9 |
| DoctorDirectory.FindIndex | healthQue-backend/models/doctorModel.js:240 | the lookup by `String(d.id) === String(id)` finds the first doctor whose id text equals the id's text, or reports that none does |
| DoctorDirectory.IdTextInjective | healthQue-backend/models/doctorModel.js:240 | two ids with the same decimal text are the same id |
| DoctorDirectory.OnlyOneMatch | healthQue-backend/models/doctorModel.js:240 | with unique ids the doctor answering to an id is the one the lookup finds |
| DoctorDirectory.MaxId | healthQue-backend/models/doctorModel.js:116 | the reduce over the ids never goes below its initial 0 |
| DoctorDirectory.MaxIdBounds | healthQue-backend/models/doctorModel.js:116 | every id is at most the largest, so one more is a fresh id |
| DoctorDirectory.DeleteRemovesTheOnlyMatch | healthQue-backend/models/doctorModel.js:240-243 | removing the doctor that answers to an id keeps ids unique, shortens the list by one and leaves no doctor answering to that id |
| DoctorDirectory.CreatedIsFoundLast | healthQue-backend/models/doctorModel.js:116-118 | a doctor just created is found by its id at the end of the list, and deleting that id gives back the list as it was |
| DoctorDirectory.Directory.Create | healthQue-backend/models/doctorModel.js:111-120 | createDoctor appends a doctor with the next id after the largest, its empty optional fields stored as null, keeps ids unique, and the new id is above every old one |
| DoctorDirectory.Directory.Delete | healthQue-backend/models/doctorModel.js:235-244 | deleteDoctor reports true exactly when some doctor answers to the id, removes that entry, and then none answers to it |
| DoctorDirectory.Directory.SetActive | healthQue-backend/models/doctorModel.js:288-300 | setUserActiveByDoctorId sets `active` to 1 or 0 on the entry answering to the id, changing nothing else, and reports whether there was one |
| DoctorDirectory.Directory.SetTrial | healthQue-backend/models/doctorModel.js:302-315 | setTrialByDoctorId sets the trial end (or null) on the first entry answering to the id, changing nothing else, and reports whether there was one |
| DoctorDirectory.SampleIdsUnique | healthQue-backend/models/doctorModel.js:18-24 | the sample doctors have unique ids |
| AppointmentController.IdFilter | healthQue-backend/controllers/appointmentController.js:45-46 | an id filter is set exactly when the query or token value is truthy |
| AppointmentController.List | healthQue-backend/controllers/appointmentController.js:26-51 | 400 exactly when the token has no tenant, 403 exactly when the role is not admin, doctor or patient; otherwise the listing is scoped to the caller's tenant with a non-zero page and limit |
| AppointmentController.ListScopesByRole | healthQue-backend/controllers/appointmentController.js:36-46 | a doctor always lists their own appointments and a patient their own; an admin's filters come from the query |
| AppointmentController.ListIgnoresOwnIdInQuery | healthQue-backend/controllers/appointmentController.js:38-42 | a doctor cannot widen the listing with `doctorId` in the query, nor a patient with `patientId` |
| AppointmentController.PagingDefaults | healthQue-backend/controllers/appointmentController.js:36-48 | a missing, zero or non-numeric page or limit falls back to 1 and 50; any other number is kept |
| AppointmentController.TextPageFallsBack | healthQue-backend/controllers/appointmentController.js:47-48 | `page=abc` and `limit=0` in the query give page 1 and limit 50 |
| AppointmentController.Create | healthQue-backend/controllers/appointmentController.js:4-19 | the booking is made exactly when validation passed, the token carries a tenant and a user and the doctor exists; 404 exactly when only the doctor is missing; the appointment is booked for the caller's own tenant and user id |
| AppointmentController.CreateIgnoresBodyPatient | healthQue-backend/controllers/appointmentController.js:9-18 | whatever patient the body names, the booking is the same: the patient is always the signed-in user |
| AppointmentController.OnlyPatientsBook | healthQue-backend/routes/appointmentRoutes.js:8-12 | behind `requireRole('patient')`, every booking that succeeds was made by a user whose role is patient, for themselves |
| RequireRole.Check | healthQue-backend/middlewares/requireRole.js:1-13 | 401 exactly when there is no user; the request goes on exactly when roles are unset, the array holds the user's role, or the single role equals it; 403 otherwise |
| RequireRole.SingleRoleIsOneElementArray | healthQue-backend/middlewares/requireRole.js:6-10 | a single role guards exactly as the array holding only that role |
| RequireRole.MoreRolesAdmitMore | healthQue-backend/middlewares/requireRole.js:6-7 | adding roles to the array never locks out a user it let through, and never changes who is refused as not signed in |
| RequireRole.EmptyArrayRefusesAll | healthQue-backend/middlewares/requireRole.js:5-7 | an empty array is truthy, so it refuses every signed-in user with 403 |
| RequireRole.PatientRouteGuard | healthQue-backend/routes/appointmentRoutes.js:8 | the booking route lets through exactly the signed-in users whose role is the text patient |
| AppointmentsScreen.FieldMatchKeepsAppointment | healthQue-frontend/src/screens/AppointmentsScreen.js:73-90 | an appointment whose flat patient or doctor name, time, status or notes contains the search term, ignoring case, stays in the list |
| AppointmentsScreen.FieldTextIsPart | healthQue-frontend/src/screens/AppointmentsScreen.js:83-87 | every searched field holding a non-empty text contributes that text to what is searched |
| AppointmentsScreen.NestedPatientKeepsAppointment | healthQue-frontend/src/screens/AppointmentsScreen.js:85 | the name of a nested patient object is searched as well |
| AppointmentsScreen.SortFallbacks | healthQue-frontend/src/screens/AppointmentsScreen.js:166-174 | the patient column sorts by the flat name, else the nested name, else the patient id, else the empty text; the time column falls back from `scheduled_at` to `scheduledAt` |
| AppointmentsScreen.DisplayedSorted | healthQue-frontend/src/screens/AppointmentsScreen.js:177-183 | the rows shown are a permutation of the filtered rows, in the comparator's order for the chosen column and direction, and the filtered rows unchanged when no column is chosen |
| PatientsScreen.FieldMatchKeepsPatient | healthQue-frontend/src/screens/PatientsScreen.js:93-106 | a patient whose name, birth date, email, phone, city or address contains the search term, ignoring case, stays in the list |
| PatientsScreen.IdMatchKeepsPatient | healthQue-frontend/src/screens/PatientsScreen.js:102 | a patient is found by its id written in decimal |
| PatientsScreen.DobFallsBack | healthQue-frontend/src/screens/PatientsScreen.js:164-169 | the birth-date column sorts by `dob` when set, else by `date_of_birth`; every other column by its own property |
| PatientsScreen.DisplayedSorted | healthQue-frontend/src/screens/PatientsScreen.js:172-178 | the rows shown are a permutation of the filtered rows, in the comparator's order for the chosen column and direction, and the filtered rows unchanged when no column is chosen |
| ClientTable.IdPart | healthQue-frontend/src/screens/AppointmentsScreen.js:82 | a row whose id is neither null nor undefined is searched by its id text |
| ClientTable.TruthyTexts | healthQue-frontend/src/screens/AppointmentsScreen.js:87 | every listed key whose value is truthy contributes its text to what is searched |
| ClientTable.NestedPart | healthQue-frontend/src/screens/AppointmentsScreen.js:85-86 | a nested name is searched when the nested object and its name are both truthy |
| ClientTable.PartHits | healthQue-frontend/src/screens/AppointmentsScreen.js:88-89 | one part containing the term, ignoring case, is enough for the joined text to contain it |
| ClientTable.SearchRowsResult | healthQue-frontend/src/screens/AppointmentsScreen.js:73-90 | an empty term or a server-side search keeps the list as it is; otherwise exactly the rows that are there and hit the term are kept, and searching again changes nothing |
| ClientTable.HitIsKept | healthQue-frontend/src/screens/PatientsScreen.js:93-106 | a row that is there and hits the term survives the search |
| ClientTable.CompareTextsConsistent | healthQue-frontend/src/screens/AppointmentsScreen.js:177-183 | the comparator is antisymmetric, answers 0 exactly on equal texts, and puts the lexicographically smaller text first when ascending and last when descending |
| ClientTable.CompareMeansLe | healthQue-frontend/src/screens/PatientsScreen.js:172-178 | a comparator answer of at most 0 is the chosen direction's text order |
| ClientTable.SortRowsSorted | healthQue-frontend/src/screens/AppointmentsScreen.js:177-183 | the sorted rows are a permutation of the input, each pair in comparator order |
| ClientTable.SortRowsKeepsTies | healthQue-frontend/src/screens/AppointmentsScreen.js:177-183 | the sort is stable: rows whose sort texts are all equal stay in their order |
| ClientTable.NextDir | healthQue-frontend/src/screens/AppointmentsScreen.js:49-51 | a press asks for 'desc' exactly when the same column is already sorted 'asc', else 'asc' |
| ClientTable.PressesAlternate | healthQue-frontend/src/screens/AppointmentsScreen.js:51 | pressing the same header again and again alternates the direction |
| ClientTable.PressHeader | healthQue-frontend/src/screens/PatientsScreen.js:50-61 | a header press sorts by that column, goes back to page 1 and asks for 'desc' exactly when that column was sorted 'asc' |
| ClientTable.PressHeaderTwice | healthQue-frontend/src/screens/PatientsScreen.js:50-61 | a second press on the same header flips the direction and a third flips it back; pressing another header starts over at 'asc' on page 1 |
| ClientTable.NumberOfPages | healthQue-frontend/src/screens/AppointmentsScreen.js:108 | the footer always offers at least one page |
| ClientTable.PagesCoverTotal | healthQue-frontend/src/screens/PatientsScreen.js:109 | every row the server counts falls on a page the footer offers, the last page offered is not empty, and no rows give exactly one page |
| Argv.SplitValue | healthQue-backend/scripts/createPatientForDoctor.js:10 | splitting on '=' gives the text before the first '=' first, and a second piece exactly when there is an '=' |
| Argv.DashedPairSetsValue | healthQue-backend/scripts/createPatientForDoctor.js:9-10 | `--k=v`, with or without more '=' pieces after, sets k to the text between the first and the second '=' |
| Argv.FlagSetsTrue | healthQue-backend/scripts/createPatientForDoctor.js:10 | `--k` without '=' sets k to true |
| Argv.PlainPairSetsValue | healthQue-backend/scripts/createPatientForDoctor.js:12-13 | `k=v` without leading dashes sets k to the text between the first and the second '=' |
| Argv.OtherTokensIgnored | healthQue-backend/scripts/createPatientForDoctor.js:15 | a token with no leading dashes and no '=' leaves the options as they were |
| Argv.LaterTokenWins | healthQue-backend/scripts/createPatientForDoctor.js:8-16 | a token that sets a key overwrites it and leaves every other key as it was |
| Argv.ParseIsLastAssignment | healthQue-backend/scripts/createPatientForDoctor.js:8-16 | a key is set exactly when some token sets it, and then holds what the last such token set |
| Argv.MainOptions | healthQue-backend/scripts/createPatientForDoctor.js:19-22 | the doctor id is `doctorId`, else `d`, else 1, as a number; each of email, password and name is the argument when it is truthy and its fixed text otherwise |
| Argv.NoArgumentsDefaults | healthQue-backend/scripts/createPatientForDoctor.js:18-22 | with no arguments the script works for doctor 1 with the fixed email, password and name |
| Argv.BareDoctorIdFlag | healthQue-backend/scripts/createPatientForDoctor.js:10-19 | a bare `--doctorId` flag given last sets it to true, which is doctor 1 |
| DevDebug.IndexOf | healthQue-frontend/src/utils/devDebug.js:19 | the first position of the listener, or -1 exactly when it is not subscribed |
| DevDebug.RemoveFirstSpec | healthQue-frontend/src/utils/devDebug.js:18-21 | unsubscribing takes out the first copy of the listener and nothing else, and changes nothing when it is not subscribed |
| DevDebug.UnsubscribeUndoesSubscribe | healthQue-frontend/src/utils/devDebug.js:16-21 | subscribing a new listener and calling the returned function restores the list, and calling it again changes nothing |
| DevDebug.CallsReachEveryListener | healthQue-frontend/src/utils/devDebug.js:8-10 | a delivery calls every listener once, in list order, with the event, whether or not any of them throws |
| DevDebug.Bus.constructor | healthQue-frontend/src/utils/devDebug.js:1 | the bus starts with no listeners, no pending timers and no calls |
| DevDebug.Bus.Subscribe | healthQue-frontend/src/utils/devDebug.js:16-17 | the listener is appended and nothing else changes |
| DevDebug.Bus.Unsubscribe | healthQue-frontend/src/utils/devDebug.js:18-21 | the first copy of the listener is taken out and nothing else changes |
| DevDebug.Bus.PushDebug | healthQue-frontend/src/utils/devDebug.js:3-14 | pushing only schedules the event: no listener runs and the list is untouched |
| DevDebug.Bus.Deliver | healthQue-frontend/src/utils/devDebug.js:6-12 | the oldest pending event is delivered to every current listener in order, a throwing listener does not stop the others, and the list is untouched |
| Migrate.StatementsAreClean | healthQue-backend/migrate.js:25-29 | no statement the runner executes is empty, holds a `;` or has white space at either end |
| Migrate.CommentLinesDropped | healthQue-backend/migrate.js:25 | comment lines are dropped and every other line is kept as it is, in order |
| Migrate.SplitStatementsRoundTrip | healthQue-backend/migrate.js:26-29 | clean statements joined with `;` split back into the same statements |
| Migrate.CommentedFileRunsItsStatements | healthQue-backend/migrate.js:22-29 | a file of clean statements followed by a comment line runs exactly those statements |
| Migrate.JoinLacks | healthQue-backend/migrate.js:25 | joining texts that lack a character, with a separator that lacks it, gives a text that lacks it |
| Migrate.UnappliedIsFilter | healthQue-backend/migrate.js:42-45 | the files the loop applies are the list filtered by not being in the applied set |
| Migrate.SqlFilesSorted | healthQue-backend/migrate.js:41 | the listing is cut down to exactly its `.sql` names, in name order |
| Migrate.PendingFiles | healthQue-backend/migrate.js:39-46 | a run applies exactly the `.sql` files not applied yet, in name order |
| Migrate.SecondRunIsEmpty | healthQue-backend/migrate.js:39-46 | once every pending file is recorded, a second run finds nothing to apply |
| MigrateRunner.FirstRejected | healthQue-backend/migrate.js:30-32 | the position of the first statement the server refuses: every statement before it is accepted |
| MigrateRunner.UnappliedPrefix | healthQue-backend/migrate.js:42-45 | stopping at a file not yet applied leaves a proper prefix of the files the run was to apply |
| MigrateRunner.Database.constructor | healthQue-backend/migrate.js:15-17 | the database starts with the names already in the `migrations` table and no statement run |
| MigrateRunner.Database.ApplyMigration | healthQue-backend/migrate.js:20-34 | the file's statements run in order up to the first one refused; the name is recorded exactly when none is refused |
| MigrateRunner.Database.ApplyStatements | healthQue-backend/migrate.js:30-33 | the statements run in order up to the first refused one, and the name is recorded exactly when all ran |
| MigrateRunner.Database.RunStatements | healthQue-backend/migrate.js:30-32 | the loop runs the statements in order and stops at the first one refused, recording nothing |
| MigrateRunner.Database.Run | healthQue-backend/migrate.js:36-46 | the run succeeds exactly when no pending file holds a refused statement; it records the pending files before the first such file, in name order, and the server has run their statements followed by that file's statements before its first refused one |
| MigrateRunner.Database.ApplyFile | healthQue-backend/migrate.js:42-45 | one file applied: it succeeds exactly when the server refuses none of its statements, the statements before the first refused one stay run, and the name is recorded only on success |
| MigrateRunner.Database.ApplyInOrder | healthQue-backend/migrate.js:42-46 | the loop over the sorted files succeeds exactly when no unapplied file fails; it records the unapplied files before the first failing one and runs exactly the statements the run reaches |
| MigrateRunner.Database.Consider | healthQue-backend/migrate.js:43-45 | one turn of the loop applies the file unless it is already recorded; it keeps the loop's invariant when the file is accepted, and on a refusal ends the run at that file with the files before it recorded |
| MigrateRunner.FirstFailing | healthQue-backend/migrate.js:42-46 | the position of the first pending file holding a refused statement: every file before it runs all its statements |
| MigrateRunner.RunStatementsOfAccepted | healthQue-backend/migrate.js:30-32 | when no file fails, the statements run are all statements of all files in order |
| MigrateRunner.FailedHere | healthQue-backend/migrate.js:42-46 | a run stopped at a file, after accepted files only, has that file as its first failing one and has run the statements before it |
| SyntaxScan.Scan | tmp_check_syntax.js:9-36 | the scanning loop computes the same outcome as the scan function `Run` from the script's starting values |
| SyntaxScan.Turn | tmp_check_syntax.js:10-34 | one turn of the loop body computes the step function `Step` |
| SyntaxScan.CountCode | tmp_check_syntax.js:29-34 | the counting part of the loop body computes `Code` on the character |
| SyntaxScan.StepKeepsStack | tmp_check_syntax.js:29-30 | one turn keeps one stack position per open brace while the brace count is not negative |
| SyntaxScan.RunResult | tmp_check_syntax.js:9-36 | the scan stops exactly when a count goes negative, otherwise reads to the end; the stack holds one position per open brace |
| SyntaxScan.ScanResult | tmp_check_syntax.js:9-42 | from the start, a scan that does not stop ends with no negative count, and an unmatched brace is reported exactly when braces are left open |
| SyntaxScan.QuotedCharsKeepCounters | tmp_check_syntax.js:13-28 | inside a string or comment, or on a character that is not one of the six brackets, the counts and the stack do not change |
| SyntaxScan.EscapedQuoteKeepsString | tmp_check_syntax.js:22-27 | a quote closes its string exactly when the character before it is not a backslash |
| SyntaxScan.CommentsEnd | tmp_check_syntax.js:11-16 | a line comment ends at the next newline and a block comment at the '/' of a '*' '/' pair, not before |
| SyntaxScan.NewlinesAppend | tmp_check_syntax.js:11 | the newlines of two texts put together are the newlines of each, added |
| SyntaxScan.StepCountsLines | tmp_check_syntax.js:11-20 | one turn adds one line exactly when it reads a newline, even when it skips the second character of a comment opening |
| SyntaxScan.RunCountsLines | tmp_check_syntax.js:9-36 | the line the scan ends on is the starting line plus the newlines it read |
| Csv.FieldRoundTrip | healthQue-frontend/src/screens/ClinicsScreen.js:508 | a well-formed field, quoted with inner quotes doubled or left bare, reads back as its text and leaves what follows it |
| Csv.RecordRoundTrip | healthQue-frontend/src/screens/ClinicsScreen.js:508 | a record of well-formed fields joined with commas reads back as its texts, up to the next line break |
| Csv.FileRoundTrip | healthQue-frontend/src/screens/ClinicsScreen.js:508 | records of well-formed fields joined with line breaks read back as every field's text, record by record |
| Csv.TableIsEncoding | healthQue-frontend/src/screens/ClinicsScreen.js:507-508 | the export text is the encoding of the header as bare cells and every row as quoted cells |
| Csv.TableReadsBack | healthQue-frontend/src/screens/ClinicsScreen.js:504-508 | an export whose header names need no quotes reads back as the header followed by the rows, whatever the rows hold |
| Paging.Slice | healthQue-frontend/src/screens/ClinicsScreen.js:61 | the slice is clamped to the list and holds the items from `start` on, in order |
| Paging.ItemOnItsPage | healthQue-frontend/src/screens/ClinicsScreen.js:60-61 | every item is shown on the page its index falls in, at the position the index leaves over |
| Paging.PageSize | healthQue-backend/models/doctorModel.js:106-107 | a page never holds more than the page size, and a page that ends inside the list is full |
| Paging.CeilDiv | healthQue-frontend/src/screens/DoctorsScreen.js:477 | the rounded-up quotient is the least multiple count that reaches the total |
| Paging.PageCount | healthQue-frontend/src/screens/ClinicsScreen.js:626 | at least one page; for a positive total, the fewest pages that hold it |
| Paging.PageCountCoversList | healthQue-frontend/src/screens/DoctorsScreen.js:477 | with at least one item, the last page counted holds items and the one after it is empty |
| Sorting.SortBy | healthQue-backend/models/doctorModel.js:98-104 | the sorted list is a permutation of the input |
| Sorting.InsertSorted | healthQue-backend/models/doctorModel.js:98-104 | inserting into a sorted list under a consistent comparator keeps it sorted |
| Sorting.SortBySorted | healthQue-backend/models/doctorModel.js:98-104 | under a consistent comparator the output is in comparator order |
| Sorting.SortByKeepsOrdered | healthQue-frontend/src/screens/DoctorsScreen.js:288-294 | the sort is stable: input already in order comes back unchanged, so ties are never swapped |
| Sorting.FlipTotalPreorder | healthQue-backend/models/doctorModel.js:101-102 | swapping the comparator's signs for 'desc' keeps it consistent |
| Sorting.SortByCongruent | healthQue-backend/models/doctorModel.js:98-104 | two comparators that agree on the list's keys sort it the same way |
| Dates.Weekday | healthQue-frontend/src/screens/DashboardScreen.js:194 | a day's weekday is between 0 (Sunday) and 6 (Saturday) |
| Dates.WeekdayOncePerWeek | healthQue-frontend/src/screens/DashboardScreen.js:135-141 | each weekday falls on exactly one of seven consecutive days |
| JsText.JoinSplit | healthQue-backend/migrate.js:25 | splitting a file into lines and joining them again with line breaks gives the file back |
| JsText.SplitJoin | healthQue-backend/migrate.js:26-27 | pieces that hold no separator, joined with it and split again, come back as they were |
| JsText.TrimIdempotent | healthQue-backend/migrate.js:28 | trimming a statement twice is trimming it once |
| JsText.TrimEnds | healthQue-frontend/src/screens/AppointmentsScreen.js:74 | the trimmed search term neither starts nor ends with white space |
| JsText.LowerIdempotent | healthQue-frontend/src/screens/AppointmentsScreen.js:74-88 | lower-casing the already lower-cased term changes nothing |
| JsText.LexLeTotalPreorder | healthQue-backend/models/doctorModel.js:101-102 | `<=` on texts is total and transitive, so the comparators built on `<` and `>` are consistent |
| JsText.JsNumberOfIntToString | healthQue-backend/controllers/appointmentController.js:45-46 | `Number(String(i))` is `i` for every integer |
| JsArray.Without | healthQue-frontend/src/screens/AddClinicScreen.js:135 | filtering out one index removes exactly that item, and an index outside the list removes nothing |
| JsArray.FilterIdempotent | healthQue-frontend/src/screens/PatientsScreen.js:99-106 | filtering twice with the same test is filtering once |
| JsValue.NumberOr | healthQue-backend/controllers/appointmentController.js:47-48 | `Number(v) or fallback` keeps a non-zero number and otherwise gives the fallback |

## Left out

- MySQL itself. The off-day table is a sequence of rows in insertion order, standing for the rows the queries return; SQL's own row order is not modelled. Connection pools, transactions and the schema probing of the other models are out.
- The unique keys of `doctor_off_days`. Their definition is not part of this model. The model assumes the keys the follow-up lookup of `createOffDay` uses: doctor and start date for a one-off row, doctor and weekday for a weekly rule. A weekly rule without a weekday collides with nothing.
- The update branch of the insert-or-update. The model assumes the server reports no insert id there, as the code's comment expects.
- The in-memory branches of the off-day store functions. They return an empty list, null or false without touching anything. The model follows the database branch.
- The database branches of `listDoctors`, `createDoctor`, `deleteDoctor`, `setUserActiveByDoctorId` and `setTrialByDoctorId`. The model follows the in-memory branch.
- The 500 answers of the handlers. These are thrown database errors, which the model has no way to raise.
- The doctor lookup of `toggleOffDayStatus`, `getOffDays` and the other off-day handlers. The doctor that owns a user id is the map parameter `doctorOf`.
- The doctor lookup of `create`. It is the function parameter `doctorExists`.
- The migration runner's access to the server, the directory and the files. Which statements the server refuses is the parameter `rejects`. The directory listing and the file contents are the parameters `files` and `contents`.
- A failed migration is not rolled back. The statements it ran before the refused one stay run, as the code leaves them.
- `process.exit`, `console` output and the file read of the migration runner and the bracket-checking script.
- The end-of-scan report of the bracket checker is not modelled. The model states when a brace is left open and which position it reports.
- `requireRole` compares roles with `includes` and `!==` on JSON values. The model compares values structurally, so two objects with the same contents count as the same role; tokens only ever carry text roles.
- Text is a sequence of UTF-16 code units in JavaScript and of characters here. Only ASCII letters are lower-cased, and only ASCII white space and the common Unicode spaces are trimmed.
- `Number()` is modelled on integer text (an optional sign and digits, empty text is 0). Decimals, exponents, hexadecimal and `Infinity` read as NaN. Numbers in JSON values are integers.
- Dates are day numbers. Time zones, `toISOString` and the clock are left out. The dashboard's window starts at a day given as a parameter.
- The debug bus delivers pending events in the order they were pushed, one zero-delay timer at a time. Listeners that subscribe or unsubscribe during a delivery are not modelled; listeners are told apart by an integer identity.
- Properties named `__proto__` or inherited from `Object.prototype` in the argument parser's options object are not modelled.
- The bracket checker's escape test looks only at the one character before a quote, as the script does, so `"\\"` keeps the string open. The model states this behaviour; it does not treat it as a finding.
- ClinicsScreen's live validation effect (ClinicsScreen.js lines 437-478), which marks clashes while the user types, is not modelled. The checks of `addRange` that it repeats are.
- The 300/500 ms locks and timers of the doctors table's header press, the dashboard's 30-second polling, the debounce timers and AddClinicScreen's profile polling and navigation.
- Places autocomplete, map pickers, toasts and every rendering detail beyond the rows a table shows and the footer's page count.
- Fetching. Every request the screens make becomes a value the model returns (the request body) or a call on the modelled table.
- The confirm dialog's lookup of the doctor id in the profile (DashboardScreen.js lines 253-255). The doctor id is a parameter of `ConfirmSetRequest` and `ConfirmUnsetRequests`.
- AddChangesOnlyTheDay, `Placed` and `ScheduleEditor.AddRange`: an edit index at or past the end of the day's list is modelled as an append. The source assigns at that index (ClinicsScreen.js line 256). The index survives a switch of day tab, so it can be past the end of the new day's list, and the assignment then leaves holes in the array. JavaScript sparse arrays are not modelled, nor the TypeError the next overlap check raises when it reads a hole.
- ScheduleEditor.AddRange: the same out-of-range edit index is modelled as an append, for the same reason.
- NormalizeTruncated, `OverwriteCopiesDay` and `RepeatWeeklySave` promise that the repeat-weekly copy saves like the source day only for a source day whose slots keep their bounds under `start` and `end`. For `{ from, to }` slots they state the copy the screen really makes, which `RepeatWeeklyBlanksFromTo` shows to be blank.
- Range: slot fields are texts. A missing field and an empty text are one case, and slot fields holding numbers or other non-text values are not modelled.
- NormalizeDay fixes one order for slots whose start does not read as a number: a stable insertion sort that leaves such a slot where the comparator's verdict puts it. The source's comparator returns NaN for such a slot, which the sort reads as 0, so the comparator is inconsistent and the engine's order is implementation-defined. `NormalizeDaySorted` and `NormalizeDayIdempotent` require numeric starts for this reason.
- AddRequestValid stands for express-validator's `isBoolean` on `is_recurring_weekly` by accepting an absent value, `true`, `false`, `0`, `1` and the texts 'true', 'false', '1' and '0'. `null`, arrays and objects count as refused. How the library treats those values is not part of this model.
- Authorize and AddRequestValid take the route's doctor id as a number. The source compares `String(ownDoctorId) !== String(id)` (healthQue-backend/controllers/doctorController.js lines 118, 148 and 249), and `isInt({ min: 1 })` lets through a text with leading zeros such as '07'. So the source answers 403 to doctor 7 on `/doctors/07/offdays`, while the model admits that request. Route ids are not modelled as texts.
- AddRequestValid takes the body's `type` as absent or a text. A JSON `null` is refused with 400 by `optional().isIn(...)` (healthQue-backend/routes/doctorRoutes.js line 67), and the model cannot represent it. Its nearest case, an absent type, is stored as 'scheduled' with 201.

## Findings

| source | as written | input that shows it | evidently intended | confidence | as-written member | corrected member |
|---|---|---|---|---|---|---|
| healthQue-frontend/src/screens/DashboardScreen.js:265-268 | the 'unset' confirmation first PATCHes the date with `{date, status: 'working'}` and no `action`, which the server treats as 'set'; it writes a one-day 'off' row that none of the per-row PATCHes that follow reaches | a doctor with no one-off row starting on the pressed day confirms 'unset': after the reload the day is still listed as off | send `action: 'unset'` so the server clears the day | not executed | CalendarFlow.UnsetAsWrittenLeavesDayOff | CalendarFlow.UnsetClearsDay |
| healthQue-frontend/src/screens/DashboardScreen.js:206-211 | the dashboard's fold lets a 'working' row clear only the 'off' rows listed before it | a 'working' row listed before an 'off' row for the same day leaves the day off; in the other order the day is clear | a 'working' row applying to a day clears it whatever the row order | not executed | Dashboard.DayListDependsOnOrder | Dashboard.ResolveIgnoresOrder |
| healthQue-backend/controllers/doctorController.js:178 | `deleteOffDay` compares `user.doctorId` with the row's doctor, but the access tokens carry no doctor id | a doctor deleting one of their own off-days is answered 403 | the owner-or-admin rule the other off-day handlers apply | not executed | OffDayController.DeleteAsWrittenRefusesOwner | OffDayController.DeleteOffDay |
| healthQue-backend/models/doctorModel.js:399-401 | after an update, `createOffDay` looks the row up again by doctor and start date only, ignoring the weekly flag | a weekly rule and a one-off row of doctor 7 both start on day 100; updating the one-off row returns the weekly rule | return the row that was written, looked up by its own key | not executed | OffDayStore.CreateAsWrittenReturnsOtherRow | OffDayStore.CreateReturnsWrittenRow |
| healthQue-frontend/src/screens/DoctorsScreen.js:22 | `toCSV` wraps every field in quotes but does not double the quotes inside it | a doctor named `","` and a doctor whose phone is `","` export as the same line | double inner quotes as section 2 rule 7 of RFC 4180 requires, so the export reads back | not executed | DoctorsScreen.ToCsvAsWrittenMergesDoctors | DoctorsScreen.ToCsvReadsBack |
| healthQue-backend/controllers/doctorController.js:199-200 | the toggle's ownership check accepts a doctor whose user id equals the row's doctor id | a doctor with user id 5, who owns doctor 9, toggles an off-day of doctor 5 | only the doctor who owns the row, or an admin, may change it | not executed | OffDayController.ToggleAsWrittenAdmitsStranger | OffDayController.ToggleRefusesStranger |
| healthQue-frontend/src/screens/DashboardScreen.js:273-284 | the per-row PATCHes of the 'unset' confirmation toggle every listed row, weekly rules included, to 'working' | a weekly rule listed on the pressed day is set to 'working' for every week, not only for that day | leave weekly rules alone and cancel them for the day with a one-day override, as the server's unset does | not executed | CalendarFlow.UnsetAsWrittenCancelsRule | CalendarFlow.UnsetKeepsWeeklyRules |
| healthQue-frontend/src/screens/ClinicsScreen.js:342 | the repeat-weekly copy reads only `x.start` and `x.end`, while every other reader of a slot falls back to `from`/`to` and `s`/`e`, the names the add-clinic screen saves | Monday holds `{ from: '09:00', to: '10:00' }`, Tuesday is ticked and Save is pressed: Monday is sent as 09:00-10:00, Tuesday as one slot with empty bounds | copy each bound through the same fallback as the save, so every ticked day is saved as the source day | not executed | ClinicsSchedule.RepeatWeeklyBlanksFromTo | ClinicsSchedule.NormalizeCopiedSlots |
