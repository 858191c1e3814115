# Orion crew: sign-up sheet, trip store and bot helpers in Dafny

This project models the pure core of the Orion sailing crew's backend, its
web client and its Telegram bot.

**The sign-up sheet.** The crew sign up for sea trips in a spreadsheet. The
backend treats the sheet as a grid of strings and reads it in stages:

- It locates the month, day and activity header rows and the block of
  participant rows by their first cells.
- It scans the header columns and carries each month label forward across
  merged cells.
- It records every '1' mark of a participant row as a sign-up for a dated
  activity.
- It groups the sign-ups into registrations keyed by date and activity.
- It turns each registration with a known activity code into a planned sea
  trip, numbering the crew and sorting the trips by date.

**Around the sheet**, the project also models:

- the spreadsheet column names;
- the trip store (trips, users and memberships) and its trip and free-crew
  views;
- the HTTP API's filters, join/leave routing and error hook;
- the label and colour tables and the date helpers of the web client;
- the bot's language selection and flags;
- the webhook endpoint and its interval helper;
- the small pure helpers of the bot.

Every operation is a pure function over immutable datatypes. A failure the
source throws is a `Result` failure. The database is an abstract record of
three sequences, constrained by the schema's keys and defaults. Every input
the source reads from outside becomes a parameter:

- the clock;
- the update handler of a bot;
- the weekday on which a month starts.

Modules, one per file:

- `Wrappers`, `Seqs`, `Text`, `Buckets`: option and result types, sequence
  helpers, the JavaScript string operations the source uses, and
  first-occurrence grouping.
- `Grid`, `Headers`, `Attendance`, `Grouping`, `SeaTrips`: the sheet parser
  and the trip builder (`backend/src/Trips.ts`).
- `Columns`: `getColumnLetter` (`backend/src/google.ts`).
- `Store`: the membership views and the schema (`backend/src/db`).
- `Api`: the route logic of `backend/src/App.ts`.
- `Labels`: `backend/src/helpers.ts` and `frontend/src/utils/utils.ts`.
- `Lang`, `Webhook`, `Bot`: `backend/src/tg`.

Two details of the source are modelled exactly as written:

- The trip builder names the training-race type "trainingrace". The server's
  label table only knows "trainingRace", so such trips are labelled
  "Неизвестно" (`Labels.BuiltTypeLabels`).
- The button labels in `backend/src/tg/Lang.ts` are stored as mis-decoded
  text: each is the UTF-8 encoding of a flag (RU, US, MX, UZ, VN or BR) read
  back as TIS-620 (Thai) text, eight characters per label. The model keeps
  those eight characters (`Lang.GetLangLabel`) and proves that rereading
  them as TIS-620 bytes and decoding the bytes as UTF-8 gives the flag
  (`Lang.LabelIsFlag`).

## Model

| member | source | states |
|---|---|---|
| Grid.StepScans | backend/src/Trips.ts:115-128 | one pass of the row loop keeps the found indices equal to the last days row, the last activity row and the first participant row among the rows read so far |
| Grid.ScanFrom | backend/src/Trips.ts:115-128 | the row loop succeeds exactly when no row lacks cells, then yields the three indices of the reference; otherwise it fails at the first row without cells, where `includes` is called on `undefined` |
| Grid.ScannedAll | backend/src/Trips.ts:115-128 | after all rows, the indices are the last "дата" row, the last activity row and the first participant row, with -1 when there is none |
| Grid.Locate | backend/src/Trips.ts:115-131 | the days row is the last row whose lower-cased first cell is "дата"; the activity row is the last one mentioning "активность"; the participant block starts at the first non-empty first cell free of every header keyword; the months row is the days row minus 2 when the days row is positive, else 0; a row without cells makes the scan fail |
| Grid.RowAt | backend/src/Trips.ts:139-141 | a header row index outside the sheet, -1 included, reads as an empty row |
| Grid.ClampIndex | backend/src/Trips.ts:142 | slice positions resolve as `Array.prototype.slice` resolves them: a negative position counts from the end and is clamped to the length |
| Grid.ParticipantRows | backend/src/Trips.ts:142 | the participant block has at most 31 rows, taken consecutively from its start; with no start found (-1), at most the last row is taken |
| Headers.MonthNumbersSpec | backend/src/Trips.ts:233-246 | the k-th value of the month table is the two-digit number k+1 |
| Headers.MonthNumber | backend/src/Trips.ts:232-249 | a name gets a number exactly when its lower-cased form is one of the twelve Russian month names, and that number is the month's two-digit number; every other name gets null |
| Headers.MonthColumn | backend/src/Trips.ts:162-163 | the month in force at column c comes from the nearest column at or left of c with a non-blank month cell; with no such column, none is in force |
| Headers.FormatDate | backend/src/Trips.ts:182 | a header date is "2025-", the two-digit month number, "-", then the day cell left-padded with '0' to two characters |
| Headers.ColumnHeaderSpec | backend/src/Trips.ts:156-183 | a column contributes nothing exactly when its own month cell is "май", its day or activity cell is blank, no month is in force, or the month is unknown; otherwise it contributes its trimmed activity and the date 2025-MM-DD of the month in force |
| Headers.ColumnHeaders | backend/src/Trips.ts:156 | there is one contribution per column up to the shortest header row; column 0, the name column, contributes nothing |
| Headers.LoopBodyIsColumnHeader | backend/src/Trips.ts:157-183 | the loop body, entered with the month in force at column c-1, leaves the month in force at column c and emits exactly column c's contribution, the `continue` on "май" included |
| Headers.ScanColumnsSpec | backend/src/Trips.ts:156-188 | the column loop emits the contributions of all columns, compacted, in column order |
| Headers.ScanDone | backend/src/Trips.ts:156 | once the loop reaches the shortest row's length, the compacted prefix of contributions is the whole list |
| Headers.ScanStep | backend/src/Trips.ts:156-188 | one pass extends the month in force and the compacted list by exactly one column |
| Headers.DateHeaders | backend/src/Trips.ts:150-188 | the header list is the compacted list of the columns' contributions |
| Headers.HeaderColumns | backend/src/Trips.ts:183 | entry c-1 of the header list belongs to a column at or right of c, and to column c itself exactly when none of columns 1..c was skipped |
| Attendance.Marks | backend/src/Trips.ts:207-211 | a column counts as a sign-up exactly when it is not the name column and its trimmed cell is exactly "1"; the loop stops at the row's end or past the header list; the sign-up goes to the header the attribution picks |
| Attendance.RowsSignUps | backend/src/Trips.ts:196-205 | every participant row yields its own sign-ups, row by row |
| Attendance.RowSignUpsSpec | backend/src/Trips.ts:198-211 | a row whose trimmed name is empty yields nothing; any other row yields its marked columns' headers with the trimmed name, in column order |
| Attendance.RowSignUpsMembership | backend/src/Trips.ts:198-211 | a sign-up comes from a row exactly when the row is named, the sign-up carries the name, and some marked column is attributed to the sign-up's header |
| Attendance.SheetSignUpsMembership | backend/src/Trips.ts:196-227 | the sheet's sign-ups are the union of its rows' sign-ups |
| Attendance.CollectNames | backend/src/Trips.ts:214-224 | a name is collected under a key exactly when a sign-up with that key carries the name |
| Attendance.CollectNonEmpty | backend/src/Trips.ts:216-224 | a key that occurs collects at least one name, so no participant list is empty |
| Attendance.GroupSpec | backend/src/Trips.ts:193-229 | there is one registration per distinct date-activity key, in first-occurrence order; each takes its date and type from the first sign-up with its key and lists every name signed up under the key, in order and without de-duplication |
| Attendance.GroupNames | backend/src/Trips.ts:214-224 | a name is listed in a registration exactly when some sign-up with the registration's key carries it |
| Attendance.SheetSignUpSource | backend/src/Trips.ts:196-224 | a sign-up of the sheet comes from a named row with a marked column attributed to its header, and conversely |
| Attendance.SheetGroupNamesSound | backend/src/Trips.ts:196-224 | every listed name comes from a row with that name and a mark attributed to a header with the registration's key |
| Attendance.SheetGroupNamesComplete | backend/src/Trips.ts:196-224 | every mark attributed to a header with the registration's key lists that row's name |
| Attendance.SheetGroupNames | backend/src/Trips.ts:196-229 | a name is listed in a registration exactly when some named row has a mark attributed to a header with its key |
| Attendance.ParseGrid | backend/src/Trips.ts:108-229 | as written, parsing fails exactly when some row has no cells, with the scan's error; otherwise the marks are counted against the compacted header list at c-1 |
| Attendance.ParseGridByColumn | backend/src/Trips.ts:108-229 | the corrected parse counts each mark against its own column's header, with the same failure cases |
| Attendance.ParseGridByColumnNames | backend/src/Trips.ts:196-229 | after a corrected parse, a name is listed in a registration exactly when a participant row with that trimmed name has a '1' in a column whose own header has the registration's key |
| Attendance.ByColumnNames | backend/src/Trips.ts:196-229 | the same fact for given header rows and participant rows |
| Attendance.ColumnListNames | backend/src/Trips.ts:196-229 | the same fact for any per-column header list whose name column is empty |
| Attendance.NoSkippedColumn | backend/src/Trips.ts:156-188 | when no header column is skipped, the header list has one entry per column and entry c-1 is column c's header |
| Attendance.AttributionsAgree | backend/src/Trips.ts:207-209 | with no skipped column, the source's attribution and the by-column one give every row the same sign-ups |
| Attendance.MarksAgree | backend/src/Trips.ts:207-211 | reading the compacted list at c-1 and the column list at c mark the same headers when the lists are aligned |
| Attendance.ParseGridAgrees | backend/src/Trips.ts:108-229 | with no skipped header column, the source's parse equals the corrected parse |
| Attendance.MisattributedMark | backend/src/Trips.ts:207-209 | in a sheet whose first date column lacks a day, a mark under 2 March "Т" is counted as written for 3 March "Г"; by column it is counted for 2 March "Т" |
| Buckets.GroupBySpec | backend/src/Trips.ts:216-224 | the first-occurrence fold behind the registration map and the trip map: one bucket per distinct key, in first-appearance order, each with the head of the first item carrying its key and the values of all items with that key, in order |
| Grouping.GroupByFieldSpec | backend/src/Trips.ts:252-271 | `groupByDate` and `groupByActivity` open one bucket per value of the field; the bucket of k holds exactly the registrations whose field is k, in their order, so each registration is in exactly one bucket |
| Grouping.BucketOfSnoc | backend/src/Trips.ts:253-258 | appending a registration extends only the bucket of its own field, opening the bucket if it is new |
| Grouping.FieldsOfSnoc | backend/src/Trips.ts:253-258 | the keys after one more registration are the keys before it plus its field |
| SeaTrips.MapActivityType | backend/src/Trips.ts:312-324 | a code maps to a trip type exactly when it is, exactly and case-sensitively, one of УТ, Т, ТГ, Г, П, К and Л; every other string maps to null |
| SeaTrips.MapActivityTypeOfCode | backend/src/Trips.ts:313-321 | every trip type is recognised from its own code, so the seven codes are distinct |
| SeaTrips.DefaultTime | backend/src/Trips.ts:332-344 | the default time is defined for all seven types and is an HH:MM time of day |
| SeaTrips.DefaultScheduleSameDay | backend/src/Trips.ts:346-358 | every type has a schedule whose departure and return are HH:MM times, with the return later the same day |
| SeaTrips.CrewOf | backend/src/Trips.ts:283-288 | a registration's crew has one member per participant, in order, with consecutive ids from the running counter; the position is "Боцман" exactly for "Курочкина Ольга" and "Матрос" otherwise; the experience is "Не указан" |
| SeaTrips.TripOfFor | backend/src/Trips.ts:291-304 | the trip built for a registration keeps its date and its participants, takes the type its code names and that type's default time and schedule, and carries the fixed vessel "Орион", destination "море" and status planned |
| SeaTrips.BuildFromTrips | backend/src/Trips.ts:277-307 | the loop yields one trip per registration with a known code, in registration order, and drops every other registration |
| SeaTrips.KeptTrips | backend/src/Trips.ts:277-306 | a kept first registration puts its trip ahead of the trips of the rest |
| SeaTrips.ConsTripFor | backend/src/Trips.ts:306 | trips matching their registrations position by position stay matched when a matching pair is put in front |
| SeaTrips.BuildFromIds | backend/src/Trips.ts:275-288 | the crew ids across all built trips are the consecutive integers from the start value, one per participant of a kept registration |
| SeaTrips.KeptIds | backend/src/Trips.ts:283-288 | a kept first registration uses the next ids for its crew, ahead of the rest |
| SeaTrips.SkippedIds | backend/src/Trips.ts:279-280 | a skipped registration uses no ids |
| SeaTrips.BuildFromKept | backend/src/Trips.ts:277-307 | a kept first registration becomes the first trip, and the counter moves on by its participant count |
| SeaTrips.CrewOfIds | backend/src/Trips.ts:284 | the ids of one crew count up from the counter's value |
| SeaTrips.Range | backend/src/Trips.ts:275 | the n consecutive integers from a |
| SeaTrips.RangeCompose | backend/src/Trips.ts:284 | two adjacent runs of consecutive ids form one run |
| SeaTrips.RangeAppend | backend/src/Trips.ts:284 | a run of consecutive ids splits at any point into two adjacent runs |
| SeaTrips.Insert | backend/src/Trips.ts:309 | inserting into a date-sorted list keeps it sorted and adds exactly the one trip |
| SeaTrips.SortedFront | backend/src/Trips.ts:309 | a trip dated no later than the head of a sorted list can go in front |
| SeaTrips.ConsSorted | backend/src/Trips.ts:309 | a sorted list stays sorted after an insertion behind a head that is no later |
| SeaTrips.SortByDate | backend/src/Trips.ts:309 | the sort returns a permutation of its input ordered by date string |
| SeaTrips.InsertOnDate | backend/src/Trips.ts:309 | an insertion keeps the trips of each date in their relative order |
| SeaTrips.SortByDateStable | backend/src/Trips.ts:309 | the sort keeps the trips of each date in their original order |
| SeaTrips.TransformToSeaTripsSpec | backend/src/Trips.ts:273-310 | the result holds the built trips, one per registration with a known code, ordered by date, trips of the same date keeping their order; the crew ids are 1, 2, 3, … across the whole call |
| Columns.ColumnLetter | backend/src/google.ts:50-58 | a column's name is made of letters A..Z and is empty exactly for numbers of at most 0, where the loop never runs |
| Columns.GetColumnLetter | backend/src/google.ts:50-58 | the source's loop, which builds the name from its last letter, computes the recursive naming: name(n) = name((n-1) div 26) followed by the letter of (n-1) mod 26 |
| Columns.ColumnNumber | backend/src/google.ts:50-58 | reading a name back in bijective base 26 gives 0 exactly for the empty name |
| Columns.NumberOfLetter | backend/src/google.ts:50-58 | reading a column's name back gives its number, so the naming is injective on the positive numbers |
| Columns.LetterOfNumber | backend/src/google.ts:50-58 | every name of capital letters names its own number, so the naming is onto the non-empty names |
| Columns.Examples | backend/src/google.ts:50-58 | 1, 26, 27, 52 and 53 are named A, Z, AA, AZ and BA, and 0 has the empty name |
| Store.TripIds | backend/src/db/schema/trips.ts:7 | the trip table's keys, in table order |
| Store.UserIds | backend/src/db/schema/users.ts:7 | the user table's keys, in table order |
| Store.Pairs | backend/src/db/schema/userActivities.ts:21 | the composite (trip, user) key of every membership, in table order |
| Store.FindUser | backend/src/db/orionDb.ts:9-13 | the lookup returns undefined exactly when no user has the id; otherwise it returns a stored user with that id |
| Store.FindTrip | backend/src/db/orionDb.ts:19-23 | the lookup returns undefined exactly when no trip has the id; otherwise it returns a stored trip with that id |
| Store.FindUnique | backend/src/db/orionDb.ts:9-23 | with the primary keys of the schema, each lookup returns the one row holding the id |
| Store.AddTrip | backend/src/db/orionDb.ts:25-27 | inserting a trip fails with a duplicate key exactly when its id is taken; otherwise it appends the row and leaves the other tables alone |
| Store.AddUser | backend/src/db/orionDb.ts:15-17 | inserting a user fails with a duplicate key exactly when its id is taken; otherwise it appends the row and leaves the other tables alone |
| Store.AddTripThenFind | backend/src/db/orionDb.ts:19-27 | after an insert, the new trip is found under its id and every other id finds what it found before |
| Store.AddUserThenFind | backend/src/db/orionDb.ts:9-17 | after an insert, the new user is found under its id and every other id finds what it found before |
| Store.AddTripValid | backend/src/db/schema/trips.ts:7 | a successful trip insert keeps every key and foreign-key constraint |
| Store.AddUserValid | backend/src/db/schema/users.ts:7 | a successful user insert keeps every key and foreign-key constraint |
| Store.NewMembership | backend/src/db/schema/userActivities.ts:17-19 | an inserted membership defaults its role to "crew", its kicked flag to false and its deletion time to unset, so with no kicked value given it is active |
| Store.AddTripUser | backend/src/db/orionDb.ts:33-35 | inserting a membership fails exactly on a repeated (trip, user) key, reported as a duplicate first, or on an unknown trip or user; otherwise it appends the row with the schema's defaults and leaves the rest alone |
| Store.AddTripUserValid | backend/src/db/schema/userActivities.ts:9-21 | a successful membership insert keeps the composite key unique and both references valid |
| Store.Apply | backend/src/db/orionDb.ts:38 | an update sets exactly the columns the patch names and keeps the row's key |
| Store.UpdateRows | backend/src/db/orionDb.ts:38 | the update rewrites exactly the rows matching both the trip and the user, and leaves every other row as it is |
| Store.UpdateTripUser | backend/src/db/orionDb.ts:37-41 | only the row with the given trip and user changes; the returned row is undefined exactly when no row has that key, and otherwise is an updated row with that key |
| Store.UpdateTripUserValid | backend/src/db/schema/userActivities.ts:9-21 | an update never changes a key column, so every constraint still holds |
| Store.SameKeysValid | backend/src/db/schema/userActivities.ts:9-21 | tables whose rows keep their keys position by position stay valid |
| Store.UpdateTripUserRow | backend/src/db/orionDb.ts:37-41 | with a unique key, the returned row is the stored row with the patch applied |
| Store.DeleteTripSpec | backend/src/db/schema/userActivities.ts:12 | deleting a trip removes it and, by the cascade, exactly its memberships; everything else stays and the constraints still hold |
| Store.DeleteUserSpec | backend/src/db/schema/userActivities.ts:16 | deleting a user removes them and, by the cascade, exactly their memberships; everything else stays and the constraints still hold |
| Store.TripRows | backend/src/db/orionDb.ts:76-88 | the left join gives every trip at least one row, and every row carries its trip |
| Store.RowCrew | backend/src/db/orionDb.ts:121-129 | a joined row yields a crew entry exactly when both its user and membership sides are present |
| Store.GetSingleTripFromDb | backend/src/db/orionDb.ts:135-191 | the single-trip view fails with "Trip Not found" exactly when no trip has the id, and otherwise returns a record with that id |
| Store.TripRowsCrew | backend/src/db/orionDb.ts:79-88 | the crew entries of one trip's rows are exactly the entries of its active memberships whose user exists |
| Store.TripRowsCrewSound | backend/src/db/orionDb.ts:81-87 | every crew entry of a trip's rows comes from an active membership of that trip with an existing user |
| Store.TripRowsCrewComplete | backend/src/db/orionDb.ts:81-87 | every active membership of a trip with an existing user has its row |
| Store.JoinOfMembership | backend/src/db/orionDb.ts:76-88 | a joined row comes from one selected trip and is one of that trip's rows |
| Store.JoinOfIds | backend/src/db/orionDb.ts:76-88 | the trip ids of the joined rows are exactly the ids of the selected trips |
| Store.JoinOfSource | backend/src/db/orionDb.ts:76-88 | every joined row belongs to a selected trip |
| Store.FindTripFirst | backend/src/db/orionDb.ts:19-23 | the lookup returns the first trip with the id |
| Store.FirstRowTrip | backend/src/db/orionDb.ts:97-118 | the first joined row with a trip id belongs to the first stored trip with that id |
| Store.JoinOfSnoc | backend/src/db/orionDb.ts:76-88 | the rows of one more trip go after the rows of the trips before it |
| Store.FirstRowInFront | backend/src/db/orionDb.ts:97-118 | the first row of an id already present is unchanged by appending a trip |
| Store.FirstRowInLast | backend/src/db/orionDb.ts:97-118 | the first row of a new id is the first row of the appended trip |
| Store.JoinOfOnly | backend/src/db/orionDb.ts:139 | the single-trip query's rows all have the requested trip id |
| Store.CollectOtherTrip | backend/src/db/orionDb.ts:121-129 | the rows of another trip add nothing to a trip's crew |
| Store.CollectJoin | backend/src/db/orionDb.ts:121-129 | a trip's crew collected from all joined rows equals the crew collected from its own rows |
| Store.GetTripsFromDbTrips | backend/src/db/orionDb.ts:90-132 | there is one record per distinct trip id of the joined rows, in first-appearance order; each carries the columns of the stored trip with its id, and a trip id has a record exactly when it is stored |
| Store.DtoIds | backend/src/db/orionDb.ts:90-132 | a trip id has a record exactly when some stored trip has it |
| Store.DtoDescribes | backend/src/db/orionDb.ts:97-118 | a record carries the columns of the first stored trip with its id |
| Store.DtoKey | backend/src/db/orionDb.ts:97-118 | a record's id is its group's key and the id of a stored trip |
| Store.GetTripsFromDbCrew | backend/src/db/orionDb.ts:121-129 | a record's crew holds exactly the entries of the trip's active memberships whose user exists, with the name "first last" trimmed and the user id as a decimal string |
| Store.NoActiveMembersNoCrew | backend/src/db/orionDb.ts:121-129 | a trip with no active member whose user exists has an empty crew |
| Store.CrewFromRows | backend/src/db/orionDb.ts:121-129 | some joined row of a trip yields an entry exactly when the entry comes from an active membership of the trip |
| Store.CrewFromRowsSound | backend/src/db/orionDb.ts:121-129 | every entry a joined row of a trip yields comes from an active membership of the trip |
| Store.CrewFromRowsComplete | backend/src/db/orionDb.ts:121-129 | every active membership of a trip with an existing user yields its entry from some joined row |
| Store.JoinOfIncludes | backend/src/db/orionDb.ts:76-88 | every row of a selected trip is among the joined rows |
| Store.SingleRows | backend/src/db/orionDb.ts:136-151 | the single-trip query has rows exactly when the trip exists, and every row carries the requested id |
| Store.SingleTripIs | backend/src/db/orionDb.ts:151-191 | the single-trip view of an existing id is the record of the first trip with the id, with that trip's crew |
| Store.ListedTripIs | backend/src/db/orionDb.ts:90-132 | each listed record is the record of the first trip with its id, with that trip's crew |
| Store.FirstWithIdUnique | backend/src/db/orionDb.ts:97 | there is only one first trip with a given id |
| Store.SingleTripAgrees | backend/src/db/orionDb.ts:75-191 | the single-trip view of a listed trip equals its record in the list |
| Store.GetFreeCrew | backend/src/db/orionDb.ts:43-73 | the free-crew list has at most one entry per user |
| Store.FreeUsersSpec | backend/src/db/orionDb.ts:43-66 | the free users are exactly the stored users that are not soft-deleted and hold no active membership of the trip, in table order |
| Store.FreeCrewWithoutMembers | backend/src/db/orionDb.ts:55-65 | with no active member, every user that is not soft-deleted is free |
| Store.GetFreeCrewEntries | backend/src/db/orionDb.ts:67-72 | there is one entry per free user, in order, made from that user's row |
| Store.CrewNames | backend/src/db/orionDb.ts:69 | for stored, unpadded names, the trip views show "first last" and the free-crew list shows "last first" |
| Store.CrewNameWithNullLastName | backend/src/db/orionDb.ts:125 | a missing last name is rendered as the word "null" |
| Api.TripsByDate | backend/src/App.ts:53-62 | the date listing echoes the date and its count is the number of listed trips |
| Api.TripsByType | backend/src/App.ts:65-74 | the type listing echoes the type and its count is the number of listed trips |
| Api.TripsByDateSpec | backend/src/App.ts:55 | the date listing holds exactly the trips with that date, each as often as in the input, in input order |
| Api.TripsByTypeSpec | backend/src/App.ts:67 | the type listing holds exactly the trips with that type, each as often as in the input, in input order |
| Api.TripsInRange | backend/src/App.ts:77-97 | the range listing echoes both bounds and its count is the number of listed trips |
| Api.TripsInRangeSpec | backend/src/App.ts:81-89 | the range listing keeps, in order, exactly the trips whose date is not before a given non-empty `from` and not after a given non-empty `to`, compared as strings; with neither bound, every trip is kept |
| Api.SingleDayRange | backend/src/App.ts:77-97 | the inclusive range from a date to itself lists exactly that date's trips |
| Api.HandleMember | backend/src/App.ts:98-150 | a body whose user id is longer than 64 characters is refused with a validation error; otherwise join writes the mark "1" and leave writes "", both for the body's user and trip |
| Api.ByCaptainIgnored | backend/src/App.ts:100-125 | the `byCaptain` field has no effect on what either route does |
| Api.JoinLeaveMarks | backend/src/App.ts:105-131 | join and leave make the same call, except that join writes "1" and leave clears the mark |
| Api.Refresh | backend/src/App.ts:153-171 | refresh never throws: it reports success with the trip count, or failure with the thrown error's message, or "Unknown error" when a non-Error was thrown |
| Api.FieldNames | backend/src/App.ts:186 | the keys of an object or of a parameter list are its fields' keys, one per field, in order |
| Api.OnError | backend/src/App.ts:173-219 | a client error gets 400 and an unauthorized error 401, whose body is `error_code` then `error_message` (undefined when the error has no message); validation, not-found and every other error get the bodies "VALIDATION", "NOT_FOUND" and "INTERNAL_SERVER_ERROR", with the status left as it is |
| Api.SetFieldGet | backend/src/App.ts:186 | after defining a key, the key reads the new value and every other key reads what it read before |
| Api.SetFieldNames | backend/src/App.ts:186 | defining a key adds exactly that key; an existing key keeps its place, a new non-index key goes last, a new array-index key is inserted among the others, and the non-index keys keep their order |
| Api.SetFieldEnumerable | backend/src/App.ts:186 | defining a key keeps the engine's enumeration order: no key twice, and the array-index keys first, in ascending numeric order |
| Api.SpreadGet | backend/src/App.ts:186 | after a spread, a key of the source reads the source's last value for it, and every other key keeps its value |
| Api.SpreadNames | backend/src/App.ts:186 | a spread adds exactly the source's keys and keeps the object's non-index keys in front of the non-index keys it adds |
| Api.SpreadEnumerable | backend/src/App.ts:186 | a spread keeps the engine's enumeration order |
| Api.ClientReply | backend/src/App.ts:179-187 | the 400 body's keys are `error_code`, `error_message` and the parameters' keys, in enumeration order, with `error_code` and `error_message` the first two non-index keys; a parameter with one of those names overrides the value but not the place; every other parameter carries its last value, and a missing message is undefined |
| Api.ClientReplyIndexFirst | backend/src/App.ts:186 | a parameter named "0" is enumerated before `error_code` and `error_message` |
| Api.Stringify | backend/src/App.ts:186-195 | the JSON text of a reply has a member for each field whose value is defined, and none for an undefined one |
| Api.UnauthorizedText | backend/src/App.ts:195 | the 401 JSON text is `error_code` and `error_message`, or only `error_code` when the error has no message |
| Api.Redact | backend/src/App.ts:176-177 | an `authorization` header starting with "Bearer " is logged as "Bearer ****"; any other header, or none, is logged as it is |
| Api.RedactIdempotent | backend/src/App.ts:176-177 | redacting twice is redacting once, and a redacted bearer header shows no token characters beyond four asterisks |
| Labels.GetTypeText | backend/src/helpers.ts:3-20 | each of the seven type strings gets its fixed Russian label, and every other string gets "Неизвестно" |
| Labels.ClientTypeText | frontend/src/utils/utils.ts:50-69 | the client's table labels the seven types, with "training" as the evening session, and every other string as "Неизвестно" |
| Labels.LabelsDistinct | backend/src/helpers.ts:5-17 | the seven labels of each table are pairwise distinct, and none is the fallback |
| Labels.GetTypeTextInjective | backend/src/helpers.ts:3-20 | a string gets the fallback exactly when it is unknown, and two known types with the same label are the same type |
| Labels.ClientDiffersOnlyOnTraining | frontend/src/utils/utils.ts:54-55 | the client's and the server's tables differ exactly on "training" |
| Labels.BuiltTypeLabels | backend/src/helpers.ts:9 | of the type names the trip builder produces, only "trainingrace" gets the fallback label, because the table spells it "trainingRace" |
| Labels.GetStatusColor | frontend/src/utils/utils.ts:72-85 | planned, active and canceled statuses, and only those, get the blue, green and red classes; every other status is grey |
| Labels.StatusColors | frontend/src/utils/utils.ts:72-85 | planned, active, canceled and completed get four different classes, and a completed trip looks like one of unknown status |
| Labels.FormatDate | frontend/src/utils/utils.ts:35-40 | the year is followed by a hyphen, and the padded month and day take at least six more characters |
| Labels.FormatDateIso | frontend/src/utils/utils.ts:35-40 | for a four-digit year, a month index 0..11 and a day 1..31, the result is the ten-character extended calendar date YYYY-MM-DD of section 4.1.2.2 of ISO 8601:2004, with the month shifted to 1..12 |
| Labels.YearField | frontend/src/utils/utils.ts:36 | a four-digit year is rendered as four digits spelling its value |
| Labels.TwoDigits | frontend/src/utils/utils.ts:36-39 | a number 1..99 padded to two characters is two digits spelling its value |
| Labels.CalendarOfParts | frontend/src/utils/utils.ts:36-39 | a four-digit field and two two-digit fields, joined by hyphens, form the calendar date of their values |
| Labels.MondayOffset | frontend/src/utils/utils.ts:10-13 | the first weekday (0 = Sunday) becomes a Monday-based offset in 0..6: 6 for Sunday, one less otherwise |
| Labels.GetDaysInMonth | frontend/src/utils/utils.ts:4-27 | the month grid is the offset's number of empty cells followed by the days 1..daysInMonth, of length offset plus daysInMonth |
| Labels.DayColumns | frontend/src/utils/utils.ts:13-24 | day d lands in the grid column of its weekday, counted from Monday |
| Lang.LangsComplete | backend/src/tg/Lang.ts:3 | the six languages are the locale's keys, each listed once, with distinct keys |
| Lang.GetLang | backend/src/tg/Lang.ts:5-13 | a missing or empty code gives English; "ru", "ua" and "kz" give Russian; "ar", "cl", "co", "mx" and "pe" give the Latin American locale; "uz", "vn" and "br" give their own language; every other code gives English |
| Lang.CodesDisjoint | backend/src/tg/Lang.ts:7-11 | no code selects two languages |
| Lang.GetLangOfKey | backend/src/tg/Lang.ts:5-13 | a locale key read as a language code selects its own language, except "latam", which gives English |
| Lang.Indicator | backend/src/tg/Lang.ts:15-30 | a capital letter has its regional-indicator symbol |
| Lang.IndicatorLetter | backend/src/tg/Lang.ts:15-30 | a regional-indicator symbol stands for a capital letter |
| Lang.Flag | backend/src/tg/Lang.ts:15-30 | a region's flag is one regional indicator per letter |
| Lang.FlagRegion | backend/src/tg/Lang.ts:15-30 | reading a flag back gives one letter per indicator |
| Lang.FlagRoundTrip | backend/src/tg/Lang.ts:15-30 | reading the letters back from a flag gives the region |
| Lang.Utf8AstralRoundTrip | backend/src/tg/Lang.ts:15-30 | decoding the four UTF-8 bytes of a code point above U+FFFF gives the code point back |
| Lang.ThaiRoundTrip | backend/src/tg/Lang.ts:15-30 | a byte read as a TIS-620 character maps back to the same byte |
| Lang.RereadMisread | backend/src/tg/Lang.ts:15-30 | a string saved as UTF-8 and read as TIS-620 text can be recovered: rereading gives its code points back |
| Lang.GetLangLabel | backend/src/tg/Lang.ts:15-30 | every language's label is the eight characters the file holds, which are the flag of its region saved as UTF-8 and read back as TIS-620 |
| Lang.LabelRereads | backend/src/tg/Lang.ts:15-30 | rereading a label gives its language's flag, and the flag's letters are the region |
| Lang.LabelIsFlag | backend/src/tg/Lang.ts:15-30 | each label rereads as the flag of its language's region, and different languages have different labels |
| Webhook.ContainsAsWrittenMeaning | backend/src/tg/webhook.ts:14 | as written, `contains(d)` holds exactly when d is at or after the later of start and end, so for a non-empty interval it holds for no instant inside and for every instant from the end on |
| Webhook.ContainsAsWrittenCounterexample | backend/src/tg/webhook.ts:14 | the interval from 0 to 10 holds 5, which the written test rejects, and does not hold 20, which it accepts |
| Webhook.IntersectsSymmetric | backend/src/tg/webhook.ts:15-17 | `intersects` is symmetric |
| Webhook.IntersectsCommonInstant | backend/src/tg/webhook.ts:15-17 | for non-empty intervals, `intersects` holds exactly when some instant lies in both, and exactly when the later start is before the earlier end |
| Webhook.IntersectsSelf | backend/src/tg/webhook.ts:15-16 | an interval intersects itself exactly when its start is before its end |
| Webhook.EmptyIntervalIntersects | backend/src/tg/webhook.ts:15-17 | an empty interval whose instant lies inside another interval counts as intersecting it, although no instant lies in both |
| Webhook.SelectBot | backend/src/tg/webhook.ts:41-42 | the primary bot is chosen exactly when the token is its secret; otherwise the mirror is chosen exactly when the token is the mirror's secret; otherwise none is chosen |
| Webhook.TelegramBotWebhook | backend/src/tg/webhook.ts:33-53 | a missing or empty header, or one matching neither secret, gets 401 "Error"; any other update goes to the chosen bot, and the reply is "Ok" exactly when that bot handles it |
| Webhook.PrimaryPreferred | backend/src/tg/webhook.ts:41-42 | when both bots share a secret, that secret selects the primary bot |
| Webhook.NoMirrorOnlyPrimary | backend/src/tg/webhook.ts:34-48 | without a mirror, only the primary secret is let through |
| Bot.CanAuthenticate | backend/src/tg/TelegramBot.ts:25-30 | an id can authenticate exactly when it is truthy, that is not undefined, "" or 0 |
| Bot.StartPayload | backend/src/tg/TelegramBot.ts:137 | the payload is the second space-separated word of the message text, present exactly when there is such a word |
| Bot.StartReferrer | backend/src/tg/TelegramBot.ts:137-145 | the referral path is taken exactly when the payload starts with "kentId" and something follows it; the referrer id is the payload without the prefix |
| Bot.StartReferrerOfCommand | backend/src/tg/TelegramBot.ts:137-145 | "/start kentId<id>", with any further words, names the referrer id |
| Bot.ReferrerOfWords | backend/src/tg/TelegramBot.ts:137-141 | words joined by spaces, the second being the prefixed id, name that id |
| Bot.ReferrerOfPayload | backend/src/tg/TelegramBot.ts:139-145 | a payload made of the prefix and a non-empty id names that id |
| Bot.AllIncluded | backend/src/tg/TelegramBot.ts:49 | every required update kind is in the reported list; a missing list includes nothing |
| Bot.WebhookAlreadySet | backend/src/tg/TelegramBot.ts:36-50 | setting the webhook is skipped exactly when the reported url is the configured one and every one of the ten required update kinds is reported |
| Bot.WebhookAlreadySetMonotone | backend/src/tg/TelegramBot.ts:48-50 | reporting extra kinds still counts as set, and losing any required kind makes the bot set the webhook again |
| Bot.IsTgSubscriptionComplete | backend/src/tg/TelegramBot.ts:337-349 | creator, administrator, member and restricted count as subscribed; left, kicked and every other status do not |
| Bot.IsCbtMode | backend/src/tg/TelegramBot.ts:408-409 | closed-testing mode holds exactly when at least one of the three access flags is set to true |
| Bot.LangBtns | backend/src/tg/TelegramBot.ts:480-485 | with language buttons switched off, there are none |
| Bot.LangBtnsSpec | backend/src/tg/TelegramBot.ts:480-485 | with buttons on, there are five: one per language other than the current one, each with a distinct locale key as its data |
| Bot.LangBtnsCount | backend/src/tg/TelegramBot.ts:480-485 | with buttons on, there are five buttons |
| Bot.LangBtnsMembers | backend/src/tg/TelegramBot.ts:483 | a language's button is offered exactly when it is not the current language |
| Bot.LangBtnsOnlyOthers | backend/src/tg/TelegramBot.ts:483 | the current language's button is never offered |
| Bot.LangBtnsAllOthers | backend/src/tg/TelegramBot.ts:483 | every other language's button is offered |
| Bot.KeyInjective | backend/src/tg/TelegramBot.ts:483 | different languages have different callback data |
| Bot.LangBtnsDistinct | backend/src/tg/TelegramBot.ts:482-484 | no two buttons carry the same callback data |
| Bot.CountFiltered | backend/src/tg/TelegramBot.ts:483-484 | dropping the one occurrence of the current language leaves one button fewer than there are languages |
| Bot.EscapeMarkdownV2 | backend/src/tg/TelegramBot.ts:506-508 | the escaped text is as long as the input plus its number of reserved characters; it never starts with a reserved character, and it holds only input characters and backslashes |
| Bot.UnescapeEscape | backend/src/tg/TelegramBot.ts:506-508 | dropping the backslash before each reserved character of the escaped text recovers the input |
| Bot.EscapeAppend | backend/src/tg/TelegramBot.ts:507 | escaping works character by character, so it distributes over concatenation |
| Bot.EscapePlain | backend/src/tg/TelegramBot.ts:507 | text without any of the 18 reserved characters is sent unchanged |

## Left out

- Network and file I/O are not modelled: the CSV download and the `csvtojson` decoding, the Google Sheets calls, and every Telegram Bot API call. The grid is an input.
- The SQL itself is not modelled, including the Drizzle query builders and the connection. The store is three sequences, and the joined rows are taken trips first, each trip's memberships in table order, because SQL leaves the order open.
- `getTripUsers` is not modelled: it only selects a trip's memberships and has no logic of its own.
- The scheduled jobs and their races with the request handlers are not modelled, and neither are `lastUpdated` or the clock.
- Date and locale formatting are not modelled: `toISOString`, `toLocaleTimeString` and the departure time of the trip views. A record carries the stored departure value unformatted.
- `getDefaultPosition` and the uuid default of the trip id are not modelled, because they are random.
- The service functions that App.ts calls are not modelled: `getTrips`, `updateParticipant`, `getFreeCrew`, `createNewTrip` and `updateTrips`. Their code is not part of this model, so the routes' trip lists are parameters.
- `mapUserRole` and `getDefaultDuration` are not part of this model, so a crew entry carries the membership's raw role and a record has no duration.
- The React components and hooks of the web client are not modelled, nor `isTripInFuture`, which reads the clock.
- The bot's referral database lookups, sessions, keyboards and web-app links are not modelled. They are foreign calls or layout.
- The locale texts are not modelled.
- Lookups in object literals are not modelled for keys inherited from `Object.prototype`, such as "constructor". A table lookup sees only the keys the source lists.
- Headers.MonthNumber: the only case folding modelled is `toLowerCase` on ASCII and on the basic Cyrillic capitals, which covers every month name.
- SeaTrips.SortByDate: `localeCompare` is modelled as code-point order. The two agree when the day cells are ASCII digits, as the sheet holds them, and can disagree otherwise: for day cells "a" and "B", code-point order puts "B" first and `localeCompare` puts "a" first.
- Api.TripsInRangeSpec: string order is code-point order, not UTF-16 code-unit order; the two differ only outside the Basic Multilingual Plane.
- Api.HandleMember: the 64-character limit counts code points, not UTF-16 code units.
- Api.OnError: only the production branches are modelled, because `isProd` is the constant `true`; logging is left out.
- Api.ClientReply: a numeric parameter is modelled as an integer, so fractional, infinite and NaN values are not modelled.
- Api.Stringify: the JSON text is modelled as its members in order, without the escaping of strings or the formatting of numbers.
- Headers.FormatDate: `padStart` counts UTF-16 code units and the model counts code points, so the two differ for a day cell holding a character outside the Basic Multilingual Plane, such as U+1D7CF. The registration keys built from the date differ with it.
- Columns.ColumnLetter: the column number is modelled as an integer. Fractional numbers (0.5 gives "@"), Infinity (the loop does not end), NaN and numbers above 2^53, where the arithmetic is inexact, are not modelled. The same holds for Columns.GetColumnLetter.
- Grouping.GroupByFieldSpec: the buckets are a map, so the key order of the returned object is not modelled; no caller in the core reads it.
- Webhook.IntersectsCommonInstant: instants are integers, so invalid dates are not modelled. Their `getTime()` is NaN and every comparison with it is false. The same holds for Webhook.ContainsAsWrittenMeaning.
- Store.UpdateTripUser: a patch never names the key columns, and an empty patch is not rejected the way Drizzle rejects it.
- Store.AddTripUser: the only column defaults modelled are role, kicked and the deletion time.
- Store.CrewNames: the name format is stated only for names without leading or trailing whitespace; otherwise the trim also removes the names' own padding.
- Bot.CanAuthenticate: NaN ids are not modelled; a numeric id is an integer.
- Webhook.TelegramBotWebhook: when the handler throws, the reply is modelled as an empty body, which is the value the `catch` resolves to; the logging is left out.
- Labels.GetDaysInMonth: the weekday of the first day and the length of the month are inputs, because they come from the platform's date library.

## Findings

| source | as written | input that shows it | evidently intended | confidence | as-written member | corrected member |
|---|---|---|---|---|---|---|
| backend/src/Trips.ts:207-209 | a mark in column c is counted for entry c-1 of the compacted header list, so once any header column has been skipped, marks are counted for a later column's date and activity | header rows where column 1 holds "март" with no day, column 2 is day 2 type "Т" and column 3 is day 3 type "Г", and a row "Иванов" marking only column 2: the sign-up is recorded for 2025-03-03 "Г" | each mark is counted for its own column's header, 2025-03-02 "Т" here | not executed | Attendance.MisattributedMark | Attendance.ParseGridByColumnNames |
| backend/src/tg/webhook.ts:14 | `contains(d)` tests start <= d and d >= end, which holds exactly from the later bound on | Interval(0, 10): `contains(5)` is false and `contains(20)` is true | start <= d < end, the half-open interval that `intersects` uses | not executed | Webhook.ContainsAsWrittenCounterexample | Webhook.IntersectsCommonInstant |
