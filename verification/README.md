# Guest-list dashboard, modelled in Dafny

The system is a party-planning dashboard. An Express backend
(`my-backend/index.js`) keeps three collections, `guests`, `tables` and
`reminders`, and a React front end shows and edits them. A guest stores the
**name** of its table (`guest.table`). A table stores a list of guest **ids**
(`table.guests`). The handlers keep the two sides in step by hand.

The model has two parts.

**The backend** (modules `Backend`, `Seating`, `Dedup`, `Records`, `Values`, `Seqs`):
- `Backend.Store` is a class whose fields are the three collections.
- Each route handler is a method that updates those fields in place and returns a status (`Ok`, `Created`, `BadRequest`, `NotFound`).
- Each method is proved equal to a pure function of the old state. The properties are proved about those functions:
  - the back-reference protocol of a table update;
  - the cascade of a guest delete;
  - merge-by-name on guest create;
  - the dedup-by-id fold of the guest listing.
- Ids are `Num(n) | Str(s)`, so that `String(a) === String(b)` (the `LooseEq` predicate) can differ from `===` (datatype equality).

**The front-end logic**, lifted out of the React components:
- the attendee dedup loop, search and status filter, delete selection and CSV export (`Attendees`);
- seat-list edits and table sections (`TablesView`);
- the countdown decomposition (`Countdown`);
- chart counts (`Statistics`);
- the e-mail list of the share dialog (`Share.EmailInvites`);
- stat cards and notification feed (`Overview`).

JavaScript truthiness is modelled explicitly:
- In a POST body the empty string stands for a missing or empty field. The handlers only test these for truthiness.
- In a PATCH body `None` is an `undefined` field.
- An age is `NoAge` (`null`) or `Years(n)`.
- `guest.table` is `None` when the field is absent. It is truthy when present and non-empty (`HasTable`).

Record ids from `Date.now()` are a parameter `now` of the handlers.

## Model

| member | source | states |
|---|---|---|
| Backend.Store.constructor | my-backend/index.js:15 | the store starts with three empty collections |
| Backend.FindTable | my-backend/index.js:35 | returns the first table whose stringified id equals the URL id, or none when no table matches |
| Backend.ApplyTablePatch | my-backend/index.js:39-46 | each of name, seats, type, spending, confirmed and guests takes the body's value when present and keeps its value otherwise; the id never changes |
| Backend.Store.PatchTable | my-backend/index.js:32-63 | unknown id: NotFound, nothing changes. Otherwise only the found table changes (by ApplyTablePatch), the reminders are untouched, and with a guest list the guests end as Reassign of the old guests under the table's post-update name (the code as written, see Findings); without one the guests are untouched |
| Backend.Store.StampListed | my-backend/index.js:48-53 | the stamping loop run in place ends in Stamped of the old guests; tables and reminders are untouched |
| Backend.Store.UnassignUnlisted | my-backend/index.js:55-59 | the unassigning loop run in place, with the strict `includes` test, ends in UnassignedStrict of the old guests; tables and reminders are untouched |
| Backend.Store.DeleteTable | my-backend/index.js:66-78 | removes exactly the tables whose id stringifies to the URL id; guests keep their `table` field; Ok iff some table had the id, and NotFound iff the list did not shrink |
| Backend.DedupById | my-backend/index.js:84-95 | the fold of the guest listing keeps only stored guests and never grows the list |
| Backend.Store.ListGuests | my-backend/index.js:81-97 | GET /api/guests returns no two entries with loosely equal ids, an entry for every stored id, and no more entries than stored guests |
| Backend.DedupByIdKeys | my-backend/index.js:84-95 | the guest listing has no two entries with the same stringified id, has an entry for every stored id, and is no longer than the store |
| Backend.DedupByIdEntries | my-backend/index.js:84-95 | every listed entry is a stored guest, and it has a table exactly when some stored guest with that id has one |
| Backend.FindByName | my-backend/index.js:107 | returns the first guest whose name equals the body's name exactly (case-sensitive), or none when no guest has it |
| Backend.MergeInto | my-backend/index.js:108-117 | id, name and table are kept; `confirmed` follows the body and the status is Confirmed iff it is set; contact, instagram, gender and age change iff the input is truthy, so a falsy input never erases a stored value |
| Backend.NewGuest | my-backend/index.js:120-129 | the new guest has id `now`, the body's name, the defaults '' / '' / '' / null, no table, and status Confirmed iff `confirmed` |
| Backend.AddOrMerge | my-backend/index.js:100-133 | empty name: BadRequest and no change. A name already present: Ok, same length, and the first guest of that name, and only it, replaced by MergeInto of it and the body (so its id is kept). Otherwise: Created, exactly NewGuest appended. On both success paths the status is Confirmed iff `confirmed` |
| Backend.AddTwiceKeepsOneRecord | my-backend/index.js:107-118 | posting the same name twice answers the second time with a merge; the list does not grow and the id of the first post is kept |
| Backend.Store.PostGuest | my-backend/index.js:100-133 | the status, body and new guest list are exactly AddOrMerge of the old guests; tables and reminders are untouched |
| Backend.Store.DeleteGuest | my-backend/index.js:137-156 | removes the guests with that id and the id from every table's list (CascadeRemoval); afterwards no guest and no seat entry carries the id; Ok iff some guest had it |
| Backend.NewTable | my-backend/index.js:166-181 | the new table has seats 6 when 0 or missing, type Standard when missing, the body's spending and confirmed, and as guests the input ids as strings, each loosely equal to its input |
| Backend.Store.PostTable | my-backend/index.js:165-194 | empty name: BadRequest and no change; otherwise exactly NewTable appended last, and the guests are stamped with the name, the same as stamping with the ids as sent |
| Backend.Store.PostReminder | my-backend/index.js:204-214 | empty message: BadRequest and no change; otherwise exactly one reminder `{now, message, date}` appended last |
| Backend.ApplyGuestPatch | my-backend/index.js:224-230 | each of name, contact, instagram, status, gender and age takes the body's value when present; id, table and confirmed never change |
| Backend.Store.PatchGuest | my-backend/index.js:217-233 | unknown id: NotFound and no change; otherwise only the first guest with that stringified id changes, by ApplyGuestPatch |
| Backend.Store.DeleteReminder | my-backend/index.js:236-248 | removes exactly the reminders with that id; Ok iff some reminder had it |
| Seating.FindById | my-backend/index.js:49 | returns the first guest whose stringified id equals the stringified argument, or none when there is no such guest |
| Seating.Stamped | my-backend/index.js:48-53 | only `table` fields change; the first guest of every loosely listed id gets the table's name; every changed guest is listed |
| Seating.UnassignedStrict | my-backend/index.js:55-59 | as written: a guest carrying the name whose id is not strictly in the list ends with no table; nobody else changes; afterwards everyone carrying the name is strictly listed |
| Seating.Reassign | my-backend/index.js:45-60 | as written: every strictly listed guest found by its own id carries the name; a guest that carried the name or was stamped but is not strictly listed ends with no table; nobody outside the strict list carries the name; a changed assignment is this table or none; guests of other tables that are not stamped keep their table; a later guest sharing a listed id (which `find` never reaches) is left exactly as it was |
| Seating.UnassignedLoose | my-backend/index.js:55-59 | corrected: a guest carrying the name and listed in no representation ends with no table; listed guests and guests of other tables are unchanged; afterwards everyone carrying the name is loosely listed |
| Seating.ReassignLoose | my-backend/index.js:45-60 | corrected: every guest a listed id finds carries the name; a guest that carried the name and is listed in no representation ends with no table; nobody outside the list carries the name; a changed assignment is this table or none; a later guest sharing a listed id is left exactly as it was |
| Seating.ListedByStringLosesSeat | my-backend/index.js:56 | a guest with id 7, listed as "7", ends without a table under Reassign and with the table under ReassignLoose |
| Seating.StringIds | my-backend/index.js:172 | `guests.map(String)`: same length, every entry a string loosely equal to its input |
| Seating.StampedStringIds | my-backend/index.js:185-190 | stamping with the stringified ids gives the same guests as stamping with the ids as sent |
| Seating.CascadeRemoval | my-backend/index.js:144-148 | only each table's guest list changes; no remaining entry stringifies to the id; every other entry is kept |
| Seating.GuestDeleteLeavesNoTrace | my-backend/index.js:142-148 | after a guest delete no guest and no table entry carries the id; the guest list shrinks iff some guest had it |
| Seating.TableDeleteShrinksIff | my-backend/index.js:70-77 | the table list shrinks iff some table has the id, and no remaining table has it |
| Dedup.KeepAssignedIsDedup | my-backend/index.js:84-95 | the fold keeps one record per key, covers every key, keeps the first record with a table (or the first record) of each key, and orders keys by first occurrence |
| Dedup.KeptHasTableIff | my-backend/index.js:89-90 | a kept record has a table exactly when some input record of its key has one |
| Seqs.Filter | my-backend/index.js:70 | `filter` keeps only passing elements, drops no passing element, and never grows the list |
| Seqs.FilterKeepsLength | my-backend/index.js:69-73 | a filter keeps the length exactly when every element passes, which is what the NotFound tests of the delete handlers rely on |
| Seqs.FilterIsSubseq | my-backend/index.js:70 | what a filter keeps stays in its original order |
| Seqs.FilterCountWhere | my-backend/index.js:70 | a filter's length is the number of elements that pass, counted independently of the filter |
| Values.ToStr | my-backend/index.js:35 | `String(id)`: a string id is itself; a number is its decimal text, with a leading '-' exactly when negative and digits after it |
| Values.LooseEq | my-backend/index.js:49 | `String(a) === String(b)` holds for equal ids, and between two numbers or two strings it is exactly `===` |
| Values.NumberAndItsString | my-backend/index.js:56 | a number id and its decimal string are equal under `String(a) === String(b)` but not under `===` |
| Values.Lower | my-dashboard-app/src/components/AttendeesSection.tsx:44 | lower-casing keeps the length and maps each character, letter by letter |
| Values.ContainsIff | my-dashboard-app/src/components/AttendeesSection.tsx:56 | `includes` holds exactly when the term occurs at some position |
| Values.TrimNonEmptyIff | my-dashboard-app/src/components/ShareDashboardModal.tsx:33 | `trim()` is non-empty exactly when some character is not whitespace |
| Attendees.AttendeeKey | my-dashboard-app/src/components/AttendeesSection.tsx:44 | the key is as long as name and instagram plus one, with a '\|' right after the name's length |
| Attendees.AttendeeKeyParts | my-dashboard-app/src/components/AttendeesSection.tsx:44 | before the '\|' the key is the lower-cased name, after it the lower-cased instagram |
| Attendees.UniqueAttendees | my-dashboard-app/src/components/AttendeesSection.tsx:41-54 | the `Map` loop returns the shared fold on the lower-cased name and instagram key: one record per key, the first one with a table when there is one, in first-occurrence order, no longer than the input |
| Attendees.PipeInNameSharesKey | my-dashboard-app/src/components/AttendeesSection.tsx:44 | names "a\|b" with instagram "" and "a" with instagram "b\|" get the same key |
| Attendees.FilterAttendees | my-dashboard-app/src/components/AttendeesSection.tsx:55-63 | every shown attendee is a deduplicated one that passes the search and status tests, and the list never grows |
| Attendees.FilterAttendeesSpec | my-dashboard-app/src/components/AttendeesSection.tsx:55-63 | the filtered list is an ordered sublist of the deduplicated one, holds exactly its visible attendees, each as many times as in the deduplicated list and no other attendee at all, and with a filter other than 'All' only that status |
| Attendees.SeatedVisibleIff | my-dashboard-app/src/components/AttendeesSection.tsx:56-62 | a seated attendee shows iff the term occurs in its table name (case-insensitively) and the status matches; a name match alone does not show it |
| Attendees.UnseatedVisibleIff | my-dashboard-app/src/components/AttendeesSection.tsx:56-62 | an unseated attendee shows iff the term occurs in its name or instagram and the status matches |
| Attendees.EmptySearchFiltersByStatus | my-dashboard-app/src/components/AttendeesSection.tsx:55-62 | with an empty search box only the status filter applies |
| Attendees.DeleteSelection | my-dashboard-app/src/components/AttendeesSection.tsx:227-230 | every selected record is a raw guest matching the clicked one by name or instagram, and a clicked raw guest is itself selected |
| Attendees.DeleteSelectionSpec | my-dashboard-app/src/components/AttendeesSection.tsx:227-230 | the selection is exactly the raw guests with the clicked one's lower-cased name or, both being non-empty, lower-cased instagram; it includes the clicked row's whole key group when names hold no pipe |
| Attendees.SameKeySameName | my-dashboard-app/src/components/AttendeesSection.tsx:44 | two attendees with the same key have the same lower-cased name unless a name holds a pipe |
| Attendees.ClickedRowIsSelected | my-dashboard-app/src/components/AttendeesSection.tsx:227-230 | the record shown in a row of the deduplicated list is in its own delete selection |
| Attendees.RowsAsWritten | my-dashboard-app/src/components/AttendeesSection.tsx:90-93 | as written: the rows fail exactly when some attendee has a null age; otherwise one row per raw attendee, the six cells joined by ',' |
| Attendees.ExportAsWritten | my-dashboard-app/src/components/AttendeesSection.tsx:87-93 | as written: nothing for an empty list, a failure iff some attendee has a null age |
| Attendees.AgeCell | my-dashboard-app/src/components/AttendeesSection.tsx:92 | corrected: the age cell never holds a comma or a line break, and a null age renders empty |
| Attendees.ExportCsv | my-dashboard-app/src/components/AttendeesSection.tsx:87-93 | corrected: nothing exactly for an empty list; otherwise a text starting with the six-column header |
| Attendees.ExportAgreesWithAges | my-dashboard-app/src/components/AttendeesSection.tsx:92 | when every attendee has an age the two exports agree |
| Attendees.NullAgeBreaksExport | my-dashboard-app/src/components/AttendeesSection.tsx:92 | one guest added without an age makes the export as written fail, while the corrected export yields the header and the row "Bo,,Unassigned,Tentative,," |
| Attendees.Join | my-dashboard-app/src/components/AttendeesSection.tsx:93 | a join of at least one part starts with the first part |
| Attendees.JoinCountsSeparators | my-dashboard-app/src/components/AttendeesSection.tsx:93 | joining line-break-free lines with '\n' gives one line break per gap |
| Attendees.SplitJoin | my-dashboard-app/src/components/AttendeesSection.tsx:93 | splitting a `join(c)` at `c` gives back the parts when no part holds `c` |
| Attendees.ExportLines | my-dashboard-app/src/components/AttendeesSection.tsx:90-93 | when no cell holds a line break, the export text split at line breaks is the header line followed by each raw attendee's row, in order |
| Attendees.ExportLineCount | my-dashboard-app/src/components/AttendeesSection.tsx:90-93 | when no cell holds a line break, the export has exactly one line break per raw attendee: a header line plus one line each |
| TablesView.AttendeeById | my-dashboard-app/src/components/TablesSection.tsx:43-48 | returns the first attendee whose stringified id equals the argument's, and nothing iff there is none |
| TablesView.AttendeeByStringId | my-dashboard-app/src/components/TablesSection.tsx:47 | asking by a number or by its decimal string finds the same attendee |
| TablesView.FindTableStrict | my-dashboard-app/src/components/TablesSection.tsx:71 | returns the first table whose id is strictly equal to the argument, or none |
| TablesView.RemovalList | my-dashboard-app/src/components/TablesSection.tsx:69-73 | nothing is sent exactly when the table is not found |
| TablesView.RemovalListSpec | my-dashboard-app/src/components/TablesSection.tsx:73 | the sent list has no occurrence of the guest id, is an ordered sublist of the old one, keeps every other id with its multiplicity, and is shorter iff the id was there |
| TablesView.AppendIfAbsent | my-dashboard-app/src/components/TablesSection.tsx:113 | as written: unchanged when `includes` (strict) finds the id, otherwise the id appended once at the end; the id is listed afterwards |
| TablesView.AppendIfAbsentIdempotent | my-dashboard-app/src/components/TablesSection.tsx:113 | adding twice is adding once; the id occurs once when it was absent, and other ids keep their counts |
| TablesView.AddListedByStringDuplicates | my-dashboard-app/src/components/TablesSection.tsx:113 | a guest listed as "7" is appended again as 7 by the code as written, and not by the corrected addition |
| TablesView.AppendIfAbsentLoose | my-dashboard-app/src/components/TablesSection.tsx:111-113 | corrected: the guest is listed afterwards; the list is unchanged when the guest is listed in any representation, and the id is appended once otherwise |
| TablesView.AppendIfAbsentLooseIdempotent | my-dashboard-app/src/components/TablesSection.tsx:113 | adding a guest again under any representation changes nothing, and an addition grows the list by at most one |
| TablesView.AdditionList | my-dashboard-app/src/components/TablesSection.tsx:110-113 | as written: the sent list holds the guest id; it is just the guest when the table is not found; otherwise the table's list, unchanged when it strictly holds the id and with the id appended otherwise |
| TablesView.CanAddGuest | my-dashboard-app/src/components/TablesSection.tsx:326 | the Add Guest control is offered only while one more guest still fits the seats |
| TablesView.AddKeepsWithinSeats | my-dashboard-app/src/components/TablesSection.tsx:326 | adding through the control, offered only while the list is shorter than the seats, never exceeds the seat count |
| TablesView.VipTables | my-dashboard-app/src/components/TablesSection.tsx:161-169 | the VIP section holds only tables of type VIP, drawn from the table list |
| TablesView.StandardTables | my-dashboard-app/src/components/TablesSection.tsx:342-350 | the Standard section holds only tables of type Standard, drawn from the table list |
| TablesView.SectionsPartition | my-dashboard-app/src/components/TablesSection.tsx:161-169 | the VIP and Standard sections never share a table, each holds every table of its exact type, a table of any other type is in neither, and together they hold at most every table |
| Countdown.InitialIsZeroDistance | my-dashboard-app/src/components/CountdownTimer.tsx:9-14 | the initial state is all zeros, the state of a zero distance |
| Countdown.Decompose | my-dashboard-app/src/components/CountdownTimer.tsx:26-31 | days is the distance divided by 86400000; hours are in 0..23, minutes and seconds in 0..59; the state covers the distance to within a second, total <= distance < total + 1000 |
| Countdown.DecomposeUnique | my-dashboard-app/src/components/CountdownTimer.tsx:27-30 | any in-range state covering the distance to within a second is the decomposition |
| Countdown.OnTick | my-dashboard-app/src/components/CountdownTimer.tsx:21-31 | a tick stops the timer exactly when the distance is negative; otherwise it sets an in-range state covering the distance |
| Countdown.PadStart | my-dashboard-app/src/components/CountdownTimer.tsx:59 | the padded text has the target width (or the text's own length when longer), ends with the original text, and every character before it is the fill character |
| Countdown.Display | my-dashboard-app/src/components/CountdownTimer.tsx:59 | a shown value has at least two characters: its decimal text preceded only by zeros |
| Countdown.DisplayShape | my-dashboard-app/src/components/CountdownTimer.tsx:59 | a shown value has at least two characters; 0 to 9 get exactly one leading zero and larger values are unchanged |
| Statistics.GroupCount | my-dashboard-app/src/components/StatisticsPanel.tsx:55-65 | an age bucket's filter length is the number of attendees in the bucket, and equals the number of attendees exactly when every attendee is in the bucket |
| Statistics.Tally | my-dashboard-app/src/components/StatisticsPanel.tsx:41-79 | the reference count: for each of the eight criteria (Female, Male, four age buckets, Confirmed, Tentative) the number of attendees it accepts |
| Statistics.Compute | my-dashboard-app/src/components/StatisticsPanel.tsx:30-82 | no aggregates exactly for an empty list; otherwise two gender entries, four age entries in bucket order, two status entries, each entry's value the number of attendees its criterion accepts, and the totals equal the status entries |
| Statistics.ComputeAppend | my-dashboard-app/src/components/StatisticsPanel.tsx:41-79 | one more attendee adds exactly one to its gender entry, its age entry and its status entry, and changes no other entry |
| Statistics.ComputeZeroIff | my-dashboard-app/src/components/StatisticsPanel.tsx:41-79 | an entry is zero exactly when no attendee meets its criterion |
| Statistics.CountsBounded | my-dashboard-app/src/components/StatisticsPanel.tsx:41-82 | female plus male, the four age buckets, and confirmed plus tentative each sum to at most the number of attendees |
| Statistics.AgeGroupsDisjoint | my-dashboard-app/src/components/StatisticsPanel.tsx:55-65 | the four age buckets never count an attendee twice: the four age entries of the panel sum to at most the number of attendees |
| Statistics.UncountedGender | my-dashboard-app/src/components/StatisticsPanel.tsx:41-52 | an attendee of another gender leaves both gender entries of the panel as they were |
| Statistics.UncountedAge | my-dashboard-app/src/components/StatisticsPanel.tsx:55-65 | an attendee with an age outside 18..100, or none, leaves the four age entries of the panel as they were |
| Share.EmailInvites.constructor | my-dashboard-app/src/components/ShareDashboardModal.tsx:12 | the list starts as one empty field |
| Share.EmailInvites.Add | my-dashboard-app/src/components/ShareDashboardModal.tsx:17-19 | one empty field is appended |
| Share.WithoutIndex | my-dashboard-app/src/components/ShareDashboardModal.tsx:22 | dropping a position in range removes exactly that field and keeps the others in order; out of range nothing changes |
| Share.EmailInvites.Remove | my-dashboard-app/src/components/ShareDashboardModal.tsx:21-23 | the list becomes WithoutIndex of the old list; removing through the control, offered while more than one field exists, never empties it |
| Share.EmailInvites.Change | my-dashboard-app/src/components/ShareDashboardModal.tsx:25-29 | only the field at the index is replaced and the length is kept |
| Share.ValidIffAt | my-dashboard-app/src/components/ShareDashboardModal.tsx:33 | a field is a valid address exactly when it holds an '@' |
| Share.ValidEmails | my-dashboard-app/src/components/ShareDashboardModal.tsx:33 | every address kept is a field holding an '@' and some non-whitespace, and the list never grows |
| Share.ValidEmailsSpec | my-dashboard-app/src/components/ShareDashboardModal.tsx:33 | the valid addresses are, in order, exactly the fields holding an '@', each address as many times as it was typed, and no address without '@' |
| Share.EmailInvites.Submit | my-dashboard-app/src/components/ShareDashboardModal.tsx:31-39 | it shares exactly the valid addresses and resets to one empty field iff there is at least one; otherwise nothing changes |
| Overview.CountsOf | my-dashboard-app/src/components/OverviewPanel.tsx:106-108 | each count is at most the attendees or tables it counts, and the confirmed count is every attendee only when all are Confirmed |
| Overview.CountsBounded | my-dashboard-app/src/components/OverviewPanel.tsx:106-108 | confirmed plus tentative is at most the attendees and reserved at most the tables; the confirmed count is zero iff no attendee is Confirmed, and the reserved count is all tables iff every table is confirmed |
| Overview.Caption | my-dashboard-app/src/components/OverviewPanel.tsx:116 | a zero count gives the fixed phrase; any other count gives its decimal text followed by the suffix |
| Overview.CaptionShowsCount | my-dashboard-app/src/components/OverviewPanel.tsx:116-130 | different non-zero counts give different captions |
| Overview.TableCreatedMessage | my-dashboard-app/src/components/OverviewPanel.tsx:77-79 | the message contains the table name when one is given, otherwise it is the fixed fallback |
| Overview.ReminderSetMessage | my-dashboard-app/src/components/OverviewPanel.tsx:90-92 | the message contains the reminder text when one is given, otherwise it is the fixed fallback |
| Overview.NotificationFeed.constructor | my-dashboard-app/src/components/OverviewPanel.tsx:29 | with nothing stored the feed starts empty |
| Overview.NotificationFeed.CreateTable | my-dashboard-app/src/components/OverviewPanel.tsx:73-85 | exactly one notification is put first and the earlier ones follow in order |
| Overview.NotificationFeed.SendReminder | my-dashboard-app/src/components/OverviewPanel.tsx:86-98 | exactly one notification is put first and the earlier ones follow in order |

## Left out

- Express routing, CORS, body parsing and lowdb persistence are left out. Each handler is one atomic step on the in-memory state, so interleaved asynchronous handlers and the parallel deletes and refetches of the front end are not modelled.
- `Date.now()` is the parameter `now`. Id uniqueness within one millisecond is not claimed.
- GET /api/tables, GET /api/reminders and /api/hello return stored data or a constant. They are not modelled.
- The fields of request bodies are modelled at their expected types. A PATCH that sets `guests` to a non-array, or a name that is not a string, is not modelled.
- Backend.DedupById: the order `Object.values` gives is modelled as insertion order. JavaScript lists array-index-like keys (small integers) first in ascending order; that ordering is not modelled.
- Values.IntToString: `String(n)` is modelled for integers only. Fractions and exponent notation (at or above 1e21) are not modelled.
- Values.Lower: `toLowerCase` is modelled for ASCII letters only. `trim` is modelled for the ASCII whitespace characters.
- Attendees: `name` and `instagram` are modelled as strings. The `?.` guards for a missing field are not modelled.
- Attendees.ExportCsv: the Blob and download steps are not modelled. The cells are not quoted, as in the source, so a comma inside a cell shifts columns.
- TablesView: fetches, modals and the refresh keys are not modelled. Only the lists the view sends are. The currency formatting of spending and the progress-bar width (floating point) are not modelled either.
- Countdown: `setInterval` and `new Date()` are not modelled. A tick takes the distance in milliseconds as an integer.
- Statistics: the confirmation rate is floating point and is not modelled. Neither are the chart colours.
- Overview: the localStorage copy of the feed is not modelled, nor is the flattening of rendered messages back to text. A message is its text, and `time` (a formatted local time) is a parameter.
- Share: the copy-link button (clipboard), the toast and closing the dialog are not modelled.
- Login and the form-only components are not modelled: App, AddGuestModal, CreateTableModal, EditGuestModal, SendReminderModal, RemindersList, Header, UserMenu, StatCard and config. Their guards repeat the backend checks modelled above.
- None of the modelled source files implements a bulk import of guest rows, so the model has none.
- Browser confirmation dialogs (`window.confirm`) are not modelled. A delete is modelled as confirmed.

## Findings

| source | as written | input that shows it | evidently intended | confidence | as-written member | corrected member |
|---|---|---|---|---|---|---|
| my-backend/index.js:56 | the unassign step tests `guests.includes(guest.id)`, a strict comparison, while every other lookup compares `String(...)` | guest id 7 (a number) listed as "7", the form POST /api/tables stores: it is stamped, then loses its table | keep every guest a listed id finds | high, not executed | Seating.ListedByStringLosesSeat | Seating.ReassignLoose |
| my-dashboard-app/src/components/AttendeesSection.tsx:92 | `a.age.toString()` throws on a null age, which POST /api/guests stores when no age is given | one attendee added without an age | export an empty age cell | high, not executed | Attendees.NullAgeBreaksExport | Attendees.ExportCsv |
| my-dashboard-app/src/components/TablesSection.tsx:113 | `currentGuests.includes(guest.id)` compares strictly; the list may hold the id as a string | table list ["7"], guest id 7: the list becomes ["7", 7] and the guest takes two seats | do not add a guest already listed | medium, not executed | TablesView.AddListedByStringDuplicates | TablesView.AppendIfAbsentLoose |

The handler and the view keep the code as written: `Backend.Store.PatchTable` ends in `Seating.Reassign`, and `TablesView.AdditionList` uses `TablesView.AppendIfAbsent`. The corrected members are pure definitions beside them, with the intended properties proved about them.
