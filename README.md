# Scheduling core of the lab meeting planner

This project models, in Dafny, the scheduling logic of a small web page where
teachers and students of a research group register, create events with
candidate dates, answer per half-hour slot whether they can attend, and see
which slots are good. All of that logic lives in `pages/index.js`. In short
(pages/index.js:184-195, 259-266, 276-337):

- an **event** has a name, target grades, candidate dates, the fixed slots
  09:00 .. 18:00 every 30 minutes, an optional deadline and one **response**
  per user, keyed by user id;
- a response copies the user's name, role and grade at submission time and
  holds the user's `answers`, a map from slot key `${date}_${slot}` to yes/no;
- `calculateOptimalDates` counts, for every (date, slot) cell, the teachers
  and the *target* students (students whose grade is one of the event's
  target grades) who answered exactly `true`; a cell qualifies when at least
  80% of the target students are free (teachers never decide it); among the
  qualifying cells it recommends the most attended one (first in grid order on
  ties) and the earliest one.

Modules, leaf first:

- `Wrappers.dfy` (module `Wrappers`): `Option` and `Result` for JavaScript's `null` and the forms' early returns
- `Calendar.dfy` (module `Calendar`): Gregorian dates, times of day, the next day, the instant order, day ranges
- `SlotKey.dfy` (module `SlotKey`): ISO text of dates and times, the slot key and a decoder proving the key determines its cell
- `Text.dfy` (module `Text`): `String.prototype.trim`
- `Model.dfy` (module `Model`): users, responses, events; the `responses` object as an ordered list of distinct keys
- `Aggregation.dfy` (module `Aggregation`): `calculateOptimalDates`: specification functions, the imperative method with its loops, and the lemmas
- `Store.dfy` (module `Store`): the event-list and user-list handlers as functions, the `EventStore` class holding the page state, `generateDatesFromRange`
- `Scenarios.dfy` (module `Scenarios`): three end-to-end examples of the aggregation, each for every event of its shape whatever the order of its responses

Modelling choices:

- `studentRatio >= 0.8` is the exact integer test `total > 0 && 5 * available >= 4 * total`; the record keeps the two counts instead of the floating-point ratio.
- `reduce` without an initial value is a left fold over prefixes (`ReduceMax`, `ReduceEarliest`), so each reduction's loop and its function agree step by step.
- `Grid` (the `results` array of pages/index.js:285-310) carries no contract of its own; `GridLength`, `GridAt` and `GridMember` determine it completely.
- A `responses` object is a list of `(userId, response)` pairs with distinct keys in insertion order; `{...responses, [id]: r}` keeps an existing key in its place and appends a new one (`Model.Upsert`). JavaScript keeps insertion order only for keys that are not array indices; user ids are `Date.now()` strings of 13 digits (pages/index.js:100), never array indices. The analysis does not depend on that order in any case (`Aggregation.AnalyzeIgnoresOrder`).
- Dates are `Calendar.Day` values (valid Gregorian dates with four-digit years); their text is `YYYY-MM-DD`, and, for the page's 09:00–18:00 slots (pages/index.js:29-33), comparing `new Date(date + 'T' + slot)` values is the lexicographic order on (date, time); a local time inside a daylight-saving spring-forward gap, which no slot is, would compare differently.
- Ids, creation timestamps and the current user are parameters or fields; nothing reads a clock.
- The source has no key decoder; `SlotKey.DecodeKey` exists to prove that distinct cells never share a key.

## Model

| member | source | states |
|---|---|---|
| `Text.Trim` | pages/index.js:171 | `trim()` returns the slice of the input left after removing its leading and trailing whitespace, and the slice starts and ends with a non-whitespace character |
| `Text.TrimEmpty` | pages/index.js:171-174 | `!name.trim()` holds exactly when the name is made only of whitespace |
| `Text.TrimIdempotent` | pages/index.js:186 | trimming the stored trimmed name again changes nothing |
| `Calendar.InstantBefore` | pages/index.js:323-325 | comparing `new Date(date + 'T' + slot)` values: an instant before another is never on a later date |
| `Calendar.Succ` | pages/index.js:147 | the next day of a valid date is a valid date strictly after it |
| `Calendar.DateRange` | pages/index.js:142-148 | every entry of the generated list is a real calendar day |
| `Calendar.DateRangeMembers` | pages/index.js:142-148 | the generated list holds exactly the valid dates between start and end, both included |
| `Calendar.DateRangeSteps` | pages/index.js:142-148 | the list is empty exactly when start is after end; otherwise it starts at start, ends at end and each entry is the day after the previous one |
| `Calendar.DateRangeIncreasing` | pages/index.js:142-148 | the list is strictly increasing, so no day appears twice |
| `Calendar.InstantBeforeOrAt` | pages/index.js:322-326 | the (date, slot) instant order is total: before an instant that is not after a third means before the third |
| `SlotKey.IsoDate` | pages/index.js:146 | a date's text is 10 characters with dashes at positions 4 and 7 |
| `SlotKey.ClockText` | pages/index.js:29-33 | a slot's text is 5 characters with `:` at position 2 |
| `SlotKey.Key` | pages/index.js:287 | a slot key is 16 characters with `_` at position 10 |
| `SlotKey.KeyRoundTrip` | pages/index.js:287 | decoding the key of a cell gives back that date and slot |
| `SlotKey.DecodeKey` | pages/index.js:287 | text the decoder accepts is exactly the key of the cell it returns |
| `SlotKey.KeyInjective` | pages/index.js:287 | two cells share a key exactly when they are the same cell, so no answer is read for the wrong cell |
| `Model.TimeSlotsCanonical` | pages/index.js:29-33 | there are 19 slots, slot `i` at 09:00 plus 30·i minutes |
| `Model.Keys` | pages/index.js:257-267 | the keys of a `responses` object, one per entry, entry `i`'s key at position `i` |
| `Model.Values` | pages/index.js:279 | `Object.values(responses)` lists the responses in entry order |
| `Model.Lookup` | pages/index.js:259 | `responses[id]` is absent exactly when no entry has key `id`, and otherwise is the value of an entry with that key |
| `Model.Upsert` | pages/index.js:257-267 | spreading in `[id]: r` keeps the key order when `id` is present and appends `id` otherwise |
| `Model.UpsertKeepsKeysDistinct` | pages/index.js:257-267 | the upsert keeps keys distinct and changes only the entry for `id` |
| `Model.UpsertLookup` | pages/index.js:257-267 | after the upsert, `id` maps to the new response and every other key to its old value |
| `Aggregation.AnsweredYes` | pages/index.js:289-290 | `answers[key] === true`: a key missing from the answers is never a yes |
| `Aggregation.IsTargetStudent` | pages/index.js:281-283 | only a student with a grade can be a target student, and with no target grades nobody is |
| `Aggregation.Teachers` | pages/index.js:280 | the teacher filter never returns more responses than it is given; `FiltersMembers` says which |
| `Aggregation.TargetStudents` | pages/index.js:281-283 | the target-student filter never returns more responses than it is given; `FiltersMembers` says which |
| `Aggregation.GroupSizes` | pages/index.js:280-283 | no response is both a teacher and a target student, so `teacherCount + studentCount` is at most the number of responses |
| `Aggregation.FiltersMembers` | pages/index.js:280-283 | the teachers are exactly the responses with role teacher; the target students exactly the students whose grade is a target grade |
| `Aggregation.TeachersAppend` | pages/index.js:280 | the teacher filter keeps the responses' order (it distributes over concatenation) |
| `Aggregation.TargetStudentsAppend` | pages/index.js:281-283 | the target-student filter keeps the responses' order |
| `Aggregation.FiltersOfTeachers` | pages/index.js:280-283 | teachers all pass the teacher filter and none passes the student filter |
| `Aggregation.FiltersOfTargetStudents` | pages/index.js:280-283 | target students all pass the student filter and none passes the teacher filter |
| `Aggregation.FiltersOfOutsiders` | pages/index.js:281-283 | students outside the target grades pass neither filter |
| `Aggregation.CountYes` | pages/index.js:289-290 | the number of `=== true` answers never exceeds the group size |
| `Aggregation.CountYesExtremes` | pages/index.js:289-290 | the count equals the group size exactly when everyone answered `true`, and is 0 exactly when nobody did (a missing key counts as no) |
| `Aggregation.Quorum` | pages/index.js:292-295 | the integer test holds exactly when there is a target student and `available / total >= 0.8` in exact arithmetic |
| `Aggregation.Cell` | pages/index.js:286-308 | a record carries its date, slot and key, counts bounded by the group sizes, `totalTargetStudents` the group size, `totalAvailable` the sum of the two counts, `meetsCriteria` equal to `studentCondition`, and a qualifying cell has at least one free student |
| `Aggregation.Row` | pages/index.js:286-309 | the inner loop pushes one record per slot, record `j` being the cell of slot `j` |
| `Aggregation.GridLength` | pages/index.js:285-310 | the nested loops push \|dates\| × \|slots\| records |
| `Aggregation.GridAt` | pages/index.js:285-309 | the record of date `i`, slot `j` is at position `i * |slots| + j` |
| `Aggregation.GridMember` | pages/index.js:285-309 | every record is the cell of some candidate date and some slot |
| `Aggregation.ValidResultsMembers` | pages/index.js:312 | the filter keeps exactly the records that meet the criteria |
| `Aggregation.ValidResultsAppend` | pages/index.js:312 | the filter keeps the original order (it distributes over concatenation) |
| `Aggregation.NothingQualifies` | pages/index.js:312 | when no record meets the criteria, the filter returns nothing |
| `Aggregation.ValidResults` | pages/index.js:312 | the filter never returns more records than it is given |
| `Aggregation.ReduceMax` | pages/index.js:318-320 | the `>` reduction returns one of the records, with the largest `totalAvailable` |
| `Aggregation.ReduceEarliest` | pages/index.js:322-326 | the `<` reduction returns one of the records, with no record at an earlier instant |
| `Aggregation.MostParticipants` | pages/index.js:314-320 | null exactly when nothing qualifies, otherwise a qualifying cell with the largest attendance |
| `Aggregation.Earliest` | pages/index.js:314-326 | null exactly when nothing qualifies, otherwise a qualifying cell no other one precedes |
| `Aggregation.AllResults` | pages/index.js:277-310 | `results` has \|candidateDates\| × \|timeSlots\| records |
| `Aggregation.Analyze` | pages/index.js:276-337 | the returned object: as many results as cells, no more valid dates than results, both recommendations null exactly when there is no valid date, and the two group counts together at most the number of responses |
| `Aggregation.PushRow` | pages/index.js:286-309 | the inner `forEach` appends the row of one date to `results` |
| `Aggregation.CollectResults` | pages/index.js:285-310 | the nested `forEach` loops build the date-major grid of records |
| `Aggregation.FilterValid` | pages/index.js:312 | the filter loop yields the qualifying records in order |
| `Aggregation.Recommend` | pages/index.js:314-327 | both recommendations stay null when nothing qualifies, and are otherwise the two reductions |
| `Aggregation.ReduceMaxLoop` | pages/index.js:318-320 | the first `reduce`, as a loop, computes the maximum fold |
| `Aggregation.ReduceEarliestLoop` | pages/index.js:322-326 | the second `reduce`, as a loop, computes the earliest fold |
| `Aggregation.CalculateOptimalDates` | pages/index.js:276-337 | the method computes the analysis that the lemmas below characterise |
| `Aggregation.AllResultsLength` | pages/index.js:285-310 | `allResults` has \|candidateDates\| × \|timeSlots\| records |
| `Aggregation.AllResultsOrder` | pages/index.js:285-309 | `allResults` is date-major: the record at `i * |timeSlots| + j` is for date `i` and slot `j`, with key `${date}_${slot}` |
| `Aggregation.AllResultsCounts` | pages/index.js:280-307 | each record counts the teachers and the target students answering `true` for its key; `availableTeachers ≤ teacherCount`, `availableStudents ≤ studentCount`, and `totalAvailable` is their sum |
| `Aggregation.MeetsCriteriaExactly` | pages/index.js:292-306 | a record meets the criteria exactly when there is a target student and at least 80% of them are available |
| `Aggregation.NoTargetStudentsNoRecommendation` | pages/index.js:292-327 | with no target student, no cell qualifies and both recommendations are null |
| `Aggregation.ValidDatesAreQualifyingResults` | pages/index.js:312 | `validDates` holds exactly the qualifying records of `allResults`, in their original order |
| `Aggregation.ReduceMaxIsFirstMaximum` | pages/index.js:318-320 | the `>` reduction returns the first record holding the largest `totalAvailable` |
| `Aggregation.ReduceEarliestIsFirstEarliest` | pages/index.js:322-326 | the `<` reduction returns the first record holding the earliest (date, slot) instant |
| `Aggregation.MostParticipantsIsFirstMaximum` | pages/index.js:314-320 | `mostParticipants` is null exactly when `validDates` is empty, and otherwise is the first of the most attended qualifying cells |
| `Aggregation.EarliestIsFirstEarliest` | pages/index.js:314-326 | `earliest` is null exactly when `validDates` is empty, and otherwise is the first qualifying cell at the earliest instant |
| `Aggregation.TeachersNeverGate` | pages/index.js:292-306 | events that differ only in their teachers' answers have the same qualifying cells and student counts, in the same order |
| `Aggregation.TeacherResponseNeverGates` | pages/index.js:289-306 | adding or replacing a teacher's response never changes which cells qualify |
| `Aggregation.OutsideStudentIgnored` | pages/index.js:281-283 | a response from a student outside the target grades leaves the whole analysis unchanged |
| `Aggregation.ResubmitCounts` | pages/index.js:281-295 | a target student resubmitting with at least the same yes answers keeps the number of target students and lowers no count |
| `Aggregation.ResubmitCountsAll` | pages/index.js:281-295 | the same, for every key at once |
| `Aggregation.MoreYesNeverHurts` | pages/index.js:290-306 | after such a resubmission, no cell loses available students and no qualifying cell stops qualifying |
| `Aggregation.CountYesAppend` | pages/index.js:289-290 | counting yes answers distributes over concatenation |
| `Aggregation.CountYesPermutation` | pages/index.js:289-290 | rearranging a group does not change how many of it said yes |
| `Aggregation.TeachersPermutation` | pages/index.js:279-280 | rearranging the responses only rearranges the teachers |
| `Aggregation.TargetStudentsPermutation` | pages/index.js:279-283 | rearranging the responses only rearranges the target students |
| `Aggregation.CellPermutation` | pages/index.js:286-308 | a record depends on its two groups only up to their order |
| `Aggregation.GridPermutation` | pages/index.js:285-310 | so does the whole `results` array |
| `Aggregation.AnalyzeIgnoresOrder` | pages/index.js:276-337 | two events alike but for the order of their responses get the same analysis |
| `Scenarios.ScenarioAllAvailable` | pages/index.js:276-337 | in any order of responses, three teachers and two target students all free in the only cell: the cell qualifies with counts 3 and 2 and is both recommendations |
| `Scenarios.ScenarioHalfTheStudents` | pages/index.js:292-327 | in any order of responses, one of two target students free: 50% is under 80%, nothing qualifies, both recommendations are null |
| `Scenarios.ScenarioTieGoesToGridOrder` | pages/index.js:314-326 | in any order of responses, two tied cells with the later date listed first: `mostParticipants` is the first-listed date, `earliest` is the other |
| `Scenarios.GroupsFiltered` | pages/index.js:280-283 | with responses made of teachers, target students and outsiders in any order, the filters return the first two groups up to order |
| `Scenarios.SameGroups` | pages/index.js:279-310 | with the groups known up to order, `results` and the group counts are those of the known lists |
| `Store.Profile` | pages/index.js:94-122 | registering or editing a profile refuses an all-whitespace name, and otherwise stores the trimmed name, the role and a grade only for students, keeping the id |
| `Store.FindUserIndex` | pages/index.js:77 | `findIndex` returns the first index with the id, or -1 exactly when there is none |
| `Store.UpsertUser` | pages/index.js:77-84 | the saved user is in the list, every other entry was there before, the length grows only for a new id, and ids stay distinct |
| `Store.UpsertUserAppends` | pages/index.js:82-83 | a new id is appended at the end |
| `Store.UpsertUserReplaces` | pages/index.js:79-81 | a known id is replaced at its first index |
| `Store.UpsertUserAt` | pages/index.js:77-84 | the in-place write at `findIndex`'s result, or the append, is the same upsert |
| `Store.UpsertUserKeepsOthers` | pages/index.js:77-84 | every user with another id stays in the list |
| `Store.ToggleGrade` | pages/index.js:153-159 | the toggled grade is selected afterwards exactly when it was not before; other grades keep their selection; a new grade is appended |
| `Store.RemoveGrade` | pages/index.js:155 | the filter removes every copy of the grade and keeps all others |
| `Store.ToggleGradeTwice` | pages/index.js:153-159 | toggling a grade twice gives back the same selection |
| `Store.GenerateDatesFromRange` | pages/index.js:131-151 | a missing bound does nothing, a start after the end is refused, otherwise the result is every day from start to end |
| `Store.CheckEventForm` | pages/index.js:171-182 | the form is accepted exactly when the name is not all whitespace and grades and dates are non-empty; otherwise the first failing check is reported |
| `Store.DeadlineOrNull` | pages/index.js:190 | an empty deadline is stored as null, any other as given |
| `Store.EventsAfterCreate` | pages/index.js:170-197 | an invalid form leaves the list unchanged; a valid one appends one event with the trimmed name, the standard slots, no responses and the creator |
| `Store.Patch` | pages/index.js:230-236 | the rewritten event takes the trimmed name, the grades, the dates and the deadline from the form and keeps every other field |
| `Store.PatchAll` | pages/index.js:228-239 | the `map` rewrites every event with the id and keeps every other event |
| `Store.EventsAfterUpdate` | pages/index.js:214-239 | an invalid form leaves the list unchanged; a valid one changes only name, target grades, candidate dates and deadline of the events with the id |
| `Store.EventsAfterSubmit` | pages/index.js:252-271 | every event with the id gets the user's entry upserted; every other event is unchanged |
| `Store.FreshResponse` | pages/index.js:259-266 | the new response copies the user's id, name, role and grade at submission time, with the given answers and the comment or `''` |
| `Store.SubmitResponseSupersedes` | pages/index.js:252-271 | afterwards the user's response is exactly the new snapshot, answers and comment (default `''`), with no old answer surviving; other users' responses and other events are unchanged |
| `Store.SubmitKeepsWellKeyed` | pages/index.js:257-266 | after a submission every entry still sits under its own user's id |
| `Store.EventsAfterDelete` | pages/index.js:367-368 | the filter keeps exactly the events with another id |
| `Store.DeleteEventAppend` | pages/index.js:368 | deleting keeps the order of the remaining events |
| `Store.DeleteAbsentEvent` | pages/index.js:368 | deleting an id no event has changes nothing |
| `Store.DeleteEventIdempotent` | pages/index.js:368 | deleting twice is deleting once |
| `Store.NewEventRecommendsNothing` | pages/index.js:184-197 | a newly created event has a full grid of records, no respondents, no qualifying cell and no recommendation |
| `Store.EventStore.constructor` | pages/index.js:5-7 | the page starts with no events, no users and nobody signed in |
| `Store.EventStore.SaveUser` | pages/index.js:73-87 | the user becomes the current user and is upserted by id into the user list; events are untouched |
| `Store.EventStore.CreateEvent` | pages/index.js:170-200 | the event list becomes the result of the create transformation, or stays as it was on a validation error |
| `Store.EventStore.UpdateEvent` | pages/index.js:214-245 | the event list becomes the result of the update transformation, or stays as it was on a validation error |
| `Store.EventStore.SubmitResponse` | pages/index.js:252-274 | the event list becomes the result of the submission by the current user |
| `Store.EventStore.DeleteEvent` | pages/index.js:367-373 | the event list loses exactly the events with the selected id |

## Left out

- Persistence: `loadData`, `saveToServer`, `saveEvents` and `localStorage` (pages/index.js:39-71, 74, 89-92) are network and browser I/O; the class holds the in-memory state they would read and write. `pages/api/data.js` is not part of this model.
- `Date.now()` ids and `new Date().toISOString()` timestamps are taken as parameters.
- `formatDate`, `formatDateShort` and `formatDeadline` (pages/index.js:339-365) depend on the local time zone and the current clock and only shape text for display.
- The JSX, the `styles` object, the drag-select form and the member list (`getUsersByGrade`) are presentation.
- `studentRatio` itself is not stored: it is a floating-point quotient, replaced by the exact integer comparison it is used for.
- `Store.GenerateDatesFromRange`: steps whole calendar days. The source parses the bounds as UTC midnight (pages/index.js:134-135), advances with the local-time `setDate` (:147), which keeps the local time of day, and prints the UTC date with `toISOString` (:146). In any time zone with daylight-saving time, a spring change inside the range can repeat one day and drop the last one, and an autumn change can drop the last one. Time zones are outside this model.
- `Store.GenerateDatesFromRange`: the source returns silently when a bound is empty; the model reports that case as `MissingBound`, with no change to the candidate dates in either.
- Answers are `map<string, bool>`: the source reads any value, but only `true` counts, and the drag-select form writes only booleans.
- Selecting and closing views (`setSelectedEvent`, `setCurrentView`, the edit flags) are UI state changes with no bearing on the data.
- Two browsers saving the whole event list at once (last write wins) is a concurrency matter between clients, outside this sequential model.
