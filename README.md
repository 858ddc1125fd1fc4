# Scheduling board core, modelled in Dafny

The scheduling board is a browser application. It keeps appointments ("events") and service templates in browser storage, and shows them on a week grid that runs from Monday to Sunday, one row per hour from 08:00. This project models the parts of it that carry logic, and proves what they promise:

- **The record store** (`dataManager.js`, module `DataManager`).
  - Browser storage is the `storage` field of the class `Store`: a map from storage key to the list of records saved under it, as `JSON.parse` reads it back. Saving goes through `Records.StoredList`, which drops the fields that hold `undefined`, as `JSON.stringify` does.
  - `Store` has the exported functions as methods: get, save, create, update, delete, find by id, and find a template by name.
  - Each method states its whole new storage.
  - Each method states that the other key's list is untouched.
  - The list logic behind the methods is a set of pure functions: `NewRecord`, `Merge`, `FindIndex`, `UpdateById`, `RemoveById`, `FindByName`. Their lemmas cover order, idempotence and unique ids.
- **Records** (`Records`). A record is a JavaScript object, modelled as a map from field name to a string, a number or `undefined`.
  - Object spread is map union, so later keys win.
  - A field that is missing, or that holds a number where a string is expected, does not equal any string.
- **JavaScript string primitives** (`JsString`): `trim` over the ECMAScript white-space set, `toLowerCase`, `split`, and `Number` on digit strings.
- **The conflict checker** (`isTimeSlotFree` in `events.js`, module `Conflict`).
  - A time is read the way `new Date(date + "T" + time + ":00")` reads it. Only "HH:MM" with HH ≤ 24 and MM ≤ 59 is valid, and 24 is valid only as 24:00. Anything else is an Invalid Date, and every comparison with an Invalid Date is false.
- **The grid mapper** (the `forEach` of `renderCalendarEvents`, module `Grid`). For each event it computes:
  - the Monday-first column;
  - the row from 08:00;
  - the duration in hours;
  - the range check;
  - whether the pass reaches a cell, skips the event, or stops on a TypeError.

  The loop itself is a method, proved against the list of blocks it draws.
- **The submit handler of the appointment form** (module `EventForm`). It checks the required fields, then the slot, then takes the template colour, then creates or updates. It is a pure decision plus a method acting on a `Store`. Two lemmas show that it keeps the board free of overlapping appointments.
- **Week navigation** (`script.js`, module `Week`).
  - Dates are day numbers with a time of day. Day 0 is Thursday 1 January 1970.
  - `getMonday` is a function.
  - `currentWeekStart` is the field of the class `WeekView`. The class's methods are the two navigation buttons and the header renderer.

Inputs that the source reads from the environment are parameters of the model:

- the clock and random generator, which give the fresh id and the `createdAt` timestamp;
- today's date;
- the weekday of an event's date;
- the number of header cells in the page;
- the module-level `editingEventId`.

At the top edge, the range check at `events.js:288` rejects only `startH - 8 > 12`, and the comment at `events.js:282` maps 20:00 to row 12. So an appointment starting at 20:00 is placed in row 12, below the 19:00 row; `Grid.RangeEdges` states this case.

## Model

| member | source | states |
|---|---|---|
| Records.HasId | dataManager.js:41 | a record has an id exactly when its `id` field holds that string; a missing or numeric `id` matches no id |
| Records.TruthyValues | events.js:302 | `undefined`, the empty string and zero are falsy; a non-empty string and a non-zero number are truthy |
| Records.Stored | dataManager.js:26 | `JSON.parse(JSON.stringify(r))` keeps exactly the fields that do not hold `undefined`, with their values |
| Records.StoredStrField | dataManager.js:26 | saving keeps every string field and every id |
| Records.StoredOfClean | dataManager.js:23 | a record without `undefined` fields, such as one read back, is saved unchanged |
| Records.StoredList | dataManager.js:26 | a saved list has the same length, and each record is saved on its own |
| Records.StoredListConcat | dataManager.js:35-36 | saving a list with a record appended is saving the list and the record |
| Records.StoredListOfClean | dataManager.js:23-26 | a list read back from storage is saved unchanged |
| Records.StoredListUpdate | dataManager.js:44-45 | saving a list read back from storage with one record replaced changes only that record, to its saved form |
| DataManager.NewRecord | dataManager.js:30-34 | the new record has the data's keys plus `id` and `createdAt`; `createdAt` is always the fresh timestamp; a caller's `id` overrides the generated one; every other field is the caller's |
| DataManager.Merge | dataManager.js:44 | the merged record has the keys of both; fields of `updates` win; all other old fields are kept |
| DataManager.FindIndex | dataManager.js:41-42 | -1 exactly when no record has the id, otherwise the first position whose record has it |
| DataManager.FindById | dataManager.js:54-56 | `None` exactly when no record has the id, otherwise the first record with it |
| DataManager.UpdateById | dataManager.js:39-46 | `None` exactly for an unknown id; otherwise the list keeps its length, only the first match is replaced, by its merge with the updates, and that merged record is returned |
| DataManager.RemoveById | dataManager.js:48-52 | no kept record has the id, and the list does not grow |
| DataManager.RemoveByIdKeeps | dataManager.js:50 | a record is kept exactly when it was in the list and does not have the id |
| DataManager.RemoveByIdConcat | dataManager.js:50 | filtering distributes over concatenation, so the kept records stay in their order |
| DataManager.RemoveByIdAbsent | dataManager.js:50 | deleting an id nobody has leaves the list as it is |
| DataManager.RemoveByIdIdempotent | dataManager.js:48-52 | deleting twice gives the same list as deleting once |
| DataManager.RemoveByIdClean | dataManager.js:50 | filtering a list without `undefined` fields keeps it that way |
| DataManager.CreatedIsFound | dataManager.js:28-56 | a record created under a fresh id is what a lookup of that id returns, and after deleting that id the lookup finds nothing |
| DataManager.CreateKeepsUniqueIds | dataManager.js:28-37 | appending a record with a fresh id and no caller `id` keeps ids unique |
| DataManager.UpdateKeepsUniqueIds | dataManager.js:39-46 | an update that carries no `id` keeps ids unique |
| DataManager.StoredKeepsUniqueIds | dataManager.js:25-27 | saving a list as JSON keeps its ids unique exactly when they were |
| DataManager.NameIndex | dataManager.js:99 | `find` stops at the first template whose name is not a string or matches; every template before it has a string name that does not match |
| DataManager.FindByName | dataManager.js:98-100 | `NotFound` exactly when every name is a string and none matches; `Found` gives the first match; `NameTypeError` when `find` reaches a name that is not a string |
| DataManager.LeadingSpaceNeverMatches | dataManager.js:99 | a stored name that starts with white space never matches, since only the query is trimmed |
| DataManager.PaddedQueryFindsTheSame | dataManager.js:99 | white space around the query does not change the lookup |
| DataManager.LowerCasedQueryFindsTheSame | dataManager.js:99 | lower-casing the query does not change the lookup |
| DataManager.NameMatches | dataManager.js:99 | a match has a string name as long as the trimmed query, and a name equal to the trimmed query matches |
| DataManager.LowerOfTrimmedLower | dataManager.js:99 | trimming and lower-casing a lower-cased query gives the same key as the query itself |
| DataManager.Store.constructor | dataManager.js:7-8 | the store starts from the given storage, which holds no `undefined` field, as `JSON.parse` gives it |
| DataManager.Store.LoadIsClean | dataManager.js:23 | a list read back from storage holds no `undefined` field |
| DataManager.Store.Load | dataManager.js:21-24 | what is read back under a key: `[]` when nothing is stored there, otherwise the list saved there |
| DataManager.Store.GetEvents | dataManager.js:21-24 | `[]` when nothing is stored under the events key, otherwise the list saved there |
| DataManager.Store.SaveEvents | dataManager.js:25-27 | the events key now holds the given list as JSON stores it, without `undefined` fields; templates are unchanged |
| DataManager.Store.CreateEvent | dataManager.js:28-38 | the events list is the old one, unchanged, with the new record as JSON saves it at the end; the record is returned as built in memory; only the events key changes; storage stays free of `undefined` |
| DataManager.Store.UpdateEvent | dataManager.js:39-47 | an unknown id returns `None` and changes nothing; otherwise only the first event with that id changes, to its merge with the updates as JSON saves it, every other event is unchanged, and the merged record is returned as built in memory; templates are unchanged |
| DataManager.Store.DeleteEvent | dataManager.js:48-53 | returns true; the events list becomes `RemoveById` of the old one, so it loses exactly the records with that id and keeps the rest unchanged and in order; templates are unchanged |
| DataManager.Store.GetEventById | dataManager.js:54-56 | the first stored event with the id, or `None` when there is none |
| DataManager.Store.GetTemplates | dataManager.js:62-65 | `[]` when nothing is stored under the templates key, otherwise the list saved there |
| DataManager.Store.SaveTemplates | dataManager.js:66-68 | the templates key now holds the given list as JSON stores it, without `undefined` fields; events are unchanged |
| DataManager.Store.CreateTemplate | dataManager.js:69-79 | the templates list is the old one, unchanged, with the new record as JSON saves it at the end; events are unchanged |
| DataManager.Store.UpdateTemplate | dataManager.js:80-88 | as `UpdateEvent`, on the templates key |
| DataManager.Store.DeleteTemplate | dataManager.js:89-94 | as `DeleteEvent`, on the templates key |
| DataManager.Store.GetTemplateById | dataManager.js:95-97 | the first stored template with the id, or `None` |
| DataManager.Store.GetTemplateByName | dataManager.js:98-100 | the `FindByName` outcome over the stored templates, with its three cases |
| JsString.TrimStart | events.js:203-205 | the result is a suffix of the input; it does not start with white space; what was dropped is all white space |
| JsString.TrimEnd | events.js:203-205 | the result is a prefix of the input; it does not end with white space; what was dropped is all white space |
| JsString.Trim | events.js:203-205 | the result is no longer than the input and has no white space at either end |
| JsString.TrimIsPaddedSlice | events.js:203-205 | the result is a slice of the input with only white space before and after it |
| JsString.TrimIgnoresPadding | events.js:203-205 | white space added around a string does not change its trim |
| JsString.TrimIdempotent | events.js:203-205 | trimming twice is trimming once |
| JsString.TrimEmptyIffWhiteSpace | events.js:203-211 | the trim is empty exactly when the string is all white space |
| JsString.ToLower | dataManager.js:99 | same length, each character lower-cased |
| JsString.ToLowerIdempotent | dataManager.js:99 | lower-casing twice is lower-casing once |
| JsString.TrimOfLowered | dataManager.js:99 | trimming and lower-casing commute |
| JsString.Split | events.js:275-276 | at least one piece and no piece contains the separator |
| JsString.JoinSplit | events.js:275-276 | joining the pieces with the separator gives back the string |
| JsString.SplitJoin | events.js:275-276 | splitting a join of separator-free pieces gives back the pieces |
| JsString.ToNumber | events.js:275-276 | a number exactly for strings of digits, and 0 for the empty string |
| Conflict.ClockMinutes | events.js:149-150 | a time reads as at most 24:00 in minutes, or as an Invalid Date (`None`) |
| Conflict.ClockOfFormat | events.js:149-150 | every time of day, and the closing midnight, formatted as "HH:MM" reads back as the same minutes |
| Conflict.FormatOfClock | events.js:149-150 | every valid time string is the formatting of its minutes |
| Conflict.ClockOfDigits | events.js:149-150 | a five-character "HH:MM" of digits reads as 60 hours plus minutes exactly when the minutes are at most 59 and the hour at most 23, or it is 24:00 |
| Conflict.FieldClock | events.js:156-157 | a stored `start` or `end` gives minutes only when it is a string, and then that string is the "HH:MM" formatting of those minutes, within a day |
| Conflict.Overlap | events.js:159 | two non-empty intervals overlap exactly when they share a minute |
| Conflict.Excluded | events.js:153 | `null` and the empty id exclude nothing; an excluded event has the id |
| Conflict.Conflicts | events.js:152-159 | a conflicting event and slot have valid times; for non-empty intervals, a conflict is exactly an event on the date, not excluded, that shares a minute with the slot |
| Conflict.IsTimeSlotFree | events.js:147-161 | free exactly when no stored event is on the date, not excluded, has valid times and strictly overlaps the slot |
| Conflict.TouchingDoesNotConflict | events.js:159 | a slot ending when an event starts, or starting when it ends, does not conflict with it |
| Conflict.OverlapOccupies | events.js:152-160 | an event on the date, not excluded, that overlaps the slot makes it occupied |
| Conflict.OnDate | events.js:154 | the events kept all have the date, and every event with the date is kept |
| Conflict.OtherDatesIrrelevant | events.js:154 | the answer is the same over all events and over only the events of the slot's date |
| Conflict.FreeOfConcat | events.js:152 | the slot is free in a concatenation exactly when it is free in both parts |
| Conflict.ExcludingIsDeleting | events.js:153 | checking with a non-empty id excluded is checking against the list with that id's events deleted |
| Conflict.EmptyExclusionExcludesNothing | events.js:147-153 | an empty exclusion id gives the same answer as `null` |
| Conflict.ClashSymmetric | events.js:159 | proposing A with B stored conflicts exactly when proposing B with A stored does |
| Conflict.AppendFreeKeepsNoClashes | events.js:147-161 | appending an event whose slot is free keeps the board free of overlapping events |
| Conflict.ReplaceFreeKeepsNoClashes | events.js:147-161 | with unique ids, replacing the event with an id by one whose slot is free when that id is excluded keeps the board free of overlapping events |
| Conflict.ConflictsOfStored | events.js:152-159 | an event saved and read back conflicts with exactly the slots it conflicted with |
| Conflict.StoredKeepsNoClashes | dataManager.js:25-27 | saving the events keeps them free of overlaps exactly when they were |
| Grid.ColumnIndex | events.js:279-280 | the column is in [0, 6], and it is the weekday moved one place back modulo 7 |
| Grid.ColumnExamples | events.js:279-280 | Sunday is column 6, Monday 0, Saturday 5 |
| Grid.HourMinute | events.js:275-276 | a time without a colon reads as its `Number` for the hours and NaN for the minutes |
| Grid.HourMinuteOfClock | events.js:275-276 | on every time the conflict checker accepts, `split(':').map(Number)` reads the same hours and minutes |
| Grid.Duration | events.js:286 | the duration in hours, times 60, is the difference of the two times in minutes |
| Grid.Place | events.js:274-297 | a non-string start or end throws; a start hour outside 8..20 is rejected; an Invalid Date that passes the check throws; a NaN start hour is skipped; otherwise the event is placed in its weekday's column and the row of its start hour |
| Grid.PlaceOfClockTimes | events.js:283-291 | for valid times, an event is placed exactly when it starts between 08:00 and 20:59, with the length of its interval in hours, and is otherwise rejected |
| Grid.PlacedAt | events.js:279-291 | an event starting between 08:00 and 20:59 is placed in its weekday's column, the row of its start hour, with its length in hours |
| Grid.NineToHalfPastTwelve | events.js:286-303 | 09:00 to 12:30 on a Monday is column 0, row 1, 3.5 hours, height 350 percent |
| Grid.NineToTen | events.js:279-303 | 09:00 to 10:00 on a Monday is column 0, row 1, one hour, height 100 percent |
| Grid.RangeEdges | events.js:288 | 08:00 is placed in row 0 and 20:00 in row 12; 07:00 and 21:00 are rejected |
| Grid.Background | events.js:302 | the block colour is the event's colour when that is truthy, and '#f8c8dc' otherwise |
| Grid.BlockOf | events.js:299-303 | the block sits in the given cell, is one cell height per hour, has a truthy background and carries exactly the event's `id` value when it has one |
| Grid.HeightPercent | events.js:303 | the height is 100 percent per hour, so it is never negative for a forward interval |
| Grid.Rendered | events.js:273-321 | at most one block per event |
| Grid.RenderCalendarEvents | events.js:273-321 | the loop draws exactly the blocks of `Rendered` |
| Grid.SkippedEventIsInvisible | events.js:288-297 | a rejected or skipped event leaves the other events' blocks as they would be without it |
| Grid.ThrowingEventEndsRendering | events.js:273-276 | a TypeError in one event stops every later event from being drawn |
| Grid.PlacedEventIsRendered | events.js:273-321 | a placed event with no throwing event before it gets its block |
| EventForm.Editing | events.js:236 | `if (editingEventId)` fails for a missing id and for the empty string, and holds only for a non-empty id |
| EventForm.ReadForm | events.js:203-209 | the service and client names are trimmed, the others kept as typed |
| EventForm.Complete | events.js:211 | a complete form has a price that is a number |
| EventForm.CompleteOfRead | events.js:203-211 | the raw form passes the required-field check exactly when the service and client are not all white space, the price is a number, and the date and times are filled in |
| EventForm.FormFields | events.js:226-234 | the fields are exactly service, client, price, date, start and end, holding the values read from the form, the price as a number |
| EventForm.EventData | events.js:226-234 | the saved record carries the form's names, price, date and times, has no `id` or `createdAt`, and its `color` is the chosen colour, `undefined` included |
| EventForm.FinalColor | events.js:224 | the matching template's colour, or `undefined` when it has none, and the form's colour when no template matches |
| EventForm.Decide | events.js:210-234 | an incomplete form is refused, then an occupied slot; with both checks passed, the lookup fails exactly when it throws, and otherwise the record is saved; a saved record carries the form's service, client, price, date and times |
| EventForm.SubmitDecision | events.js:203-234 | the same on the raw form: a blank name or time, or a NaN price, is refused; an occupied slot is refused; a complete form with a free slot is saved unless the lookup throws; a saved record carries the trimmed names, the price, the date and the times |
| EventForm.TemplateColorWins | events.js:223-224 | the saved colour is the matching template's colour (`undefined` when it has none), else the form's colour |
| EventForm.ColourlessTemplateClearsColour | events.js:223-237 | with a matching template that has no colour, the appointment as saved, new or edited, has no colour, and its block is drawn in '#f8c8dc' |
| EventForm.Submit | events.js:199-240 | a refused submit leaves the storage unchanged; otherwise it saves the edited event's update, or the list with a new one appended; with `editingEventId` set, the number of appointments never changes; storage stays free of `undefined` |
| EventForm.SubmitValues | events.js:210-240 | as `Submit`, on the values read from the form |
| EventForm.CreateKeepsNoClashes | events.js:215-239 | creating through the form keeps the saved board free of overlapping appointments |
| EventForm.UpdateKeepsNoClashes | events.js:215-237 | with unique ids, editing through the form keeps the saved board free of overlapping appointments |
| EventForm.ManicureFound | dataManager.js:98-100 | the "Manicure" template is found by its own name |
| EventForm.ManicureSaved | events.js:210-234 | a Monday 09:00 to 10:00 "Manicure" appointment is saved in the template's colour |
| EventForm.ManicureOverlapRefused | events.js:215-221 | with it stored, a 09:30 to 10:30 appointment on the same day is refused |
| EventForm.ManicureClocks | events.js:149-150 | the clock readings of 09:00, 09:30, 10:00 and 10:30 |
| Week.WeekdayOf | script.js:8 | `getDay()` of a day number: day 0 is a Thursday and day 4 a Monday |
| Week.WeekdayOfWeekShift | script.js:49-55 | moving a date by a week keeps its weekday |
| Week.WeekdayAfterShift | script.js:10 | moving a date by k days moves its weekday by k modulo 7 |
| Week.MondayOffset | script.js:9 | the offset is in [-6, 0] and lands on a Monday |
| Week.MondayOffsetUnique | script.js:9 | it is the only such offset |
| Week.MondayOffsetIsColumn | script.js:9 | the offset is minus the grid column of the same weekday |
| Week.GetMonday | script.js:6-13 | the result is at midnight, on a Monday, at most six days before the date |
| Week.GetMondayOfWeek | script.js:6-13 | every moment from a Monday to the next Sunday has that Monday midnight as its `getMonday` |
| Week.GetMondayIdempotent | script.js:6-13 | `getMonday` of its own result is that result |
| Week.HeaderColumn | script.js:23-25 | header cell `i` of a week starting on a Monday falls in grid column `i` |
| Week.WeekView.constructor | script.js:3 | the week starts at `getMonday` of today, so on a Monday midnight |
| Week.WeekView.PreviousWeek | script.js:48-52 | the week start moves exactly 7 days back and stays a Monday midnight |
| Week.WeekView.NextWeek | script.js:54-57 | the week start moves exactly 7 days forward and stays a Monday midnight |
| Week.PreviousThenNext | script.js:48-57 | a week back and then forward restores the week start |
| Week.WeekView.RenderWeekHeader | script.js:15-45 | nothing is drawn unless there are exactly seven cells; cell `i` names the week start plus `i` days and its weekday, and is marked exactly when that day is today; on a Monday start cell `i` is grid column `i` |

## Left out

- DOM work is not modelled: drawing, event listeners, `alert` and `confirm`, modal display, `eventForm.reset()`, and the refresh calls after a change.
- `localStorage` and `JSON.parse`/`JSON.stringify` are a map from key to record list. A stored string that is not valid JSON, or that parses to something other than a list, is not modelled.
- JSON is modelled only as far as the records need it: strings, numbers and `undefined`, which `JSON.stringify` drops (`Records.Stored`). `null`, booleans, nested values and the string form of numbers are not modelled.
- `generateId` (`Date.now`, `Math.random`) and `new Date().toISOString()` are replaced by `id` and `createdAt` parameters. Uniqueness of a fresh id is a precondition of `DataManager.CreateKeepsUniqueIds` and `DataManager.CreatedIsFound`.
- Records hold only the ten fields the code reads or writes (`Records.Field`). Other keys that a stored object might carry are not modelled.
- Date parsing, time zones and daylight saving time are not modelled:
  - the weekday of an event's `date` is the parameter `dayOf`, with `None` for an Invalid Date;
  - `script.js` dates are local day numbers, with a time of day that `setDate` keeps.
- Conflict.ClockMinutes: a `start` or `end` stored as a number, or a time outside "HH:MM", is taken to be an Invalid Date. Engines whose fallback parser accepts other strings are not modelled.
- JsString.ToNumber: `Number` is not modelled on signs, white space, decimals and exponents; it covers digit strings and "". Times are taken to be "HH:MM", as the comment at events.js:282 reads them.
- JsString.ToLower maps ASCII and Latin-1 letters only. Wider Unicode case mappings, and mappings that change length, are not modelled.
- `parseFloat`, `isNaN` and `toFixed` on prices are not modelled: a price is a real number, or `None` for NaN.
- The durations and heights in `Grid` are exact reals, not floating point.
- The `pt-PT` weekday names and the dd/mm text of the header cells are not modelled. Header cells carry the day number and the weekday instead.
- The colour and price autofill on the service input (`events.js:39-51`) is not modelled. Its lookup is `DataManager.FindByName`.
- The template form, the template list with its edit and delete buttons, and the datalist of suggestions are not modelled. The store operations they call are.
- The delete button of the appointment modal (`events.js:252-258`) is not modelled; it calls `DeleteEvent` under a `confirm`.
- Conflict.ClockMinutes: the date is not part of the reading. In the source it is part of the string `new Date` parses (`events.js:149-150`, `156-157`). A date the engine rejects makes every `Date` invalid and every comparison false, so the slot is always free; the model still compares the times, and can answer "occupied".
- Grid.Place: it assumes the page has seven day columns of 13 `.cell.event` cells each. With fewer cells, `targetCell` is undefined at `events.js:295-297` and the event is skipped; the page layout is not modelled.
- Grid.BlockOf: for an event with no `id`, the source writes the string "undefined" into `data-event-id` (`events.js:301`); the model has `None` there.
- Opening the modal is not modelled. `openEditEventModal` (`events.js:178-195`) sets `editingEventId`, which is the `editing` parameter of `EventForm.Submit`, and fills the form.
- `openNewEventModal` (`events.js:166-173`) is never called: the add button (`script.js:73-75`) only shows the modal, and the submit handler never clears `editingEventId`. So after one edit, every later "new" appointment goes to `updateEvent` with the old id. It overwrites the edited appointment, or saves nothing once that appointment has been deleted (`events.js:254`). `EventForm.Submit` shows this: with `editing` set, the number of appointments never changes. The sequence of user actions that leads there is not modelled.
