# Clinic queue system — a Dafny model

This project models the core of a small clinic queueing system. The system has four parts:

- A server keeps patient and user documents and broadcasts every change on a live event channel.
- A public TV board groups the active queue by cubicle and plays an alert when the first name shown for a cubicle changes.
- Three dashboards keep local copies of the lists and patch them from the broadcasts:
  - the nurse view: search, filter and edit;
  - the encoder view: the add form;
  - the admin view: the user roster.

The server (`server.dfy`) is a class `Server.Clinic`:

- Two maps hold the patient and user collections, keyed by document id.
- A clock field supplies `createdAt`.
- An append-only `events` sequence records every broadcast, in emission order.
- A ghost `history` holds the patient store before the first broadcast and after each one.

Each HTTP handler is a method with early-return error branches and returns its status code. Its contract states both:

- which inputs lead to which code;
- what the store and the event log are afterwards.

`Server.Clinic.Valid` is the invariant every handler keeps. The one exception is `Server.Clinic.DeletePatientAsWritten`, the patient delete as the source writes it: it keeps `Valid` only for an id in stored form (see "## Findings"). The invariant states:

- records are stored under their own ids;
- ids are in the driver's form, 24 lower-case hexadecimal digits;
- `createdAt` values are distinct and below the clock;
- usernames are unique;
- `Replays(history, events)` holds, the history starts from the empty store, and its last entry is the current store.

`records.dfy` defines the documents and the event kinds. It also defines the relations the clients rely on:

- `ListsStore`: a list holds exactly the records of a store.
- `NewestFirst`: strictly descending `createdAt`.
- `IsRoster`: the password-free user snapshot.
- `PatientStep`: what a patient event guarantees about the store before and after it. A user event leaves the patient store as it is.
- `Replays`: a sequence of stores that a sequence of events leads through, one `PatientStep` per event.

Each handler that broadcasts extends `history` and keeps `Replays` in `Valid`; `Server.Clinic.Broadcast` does this for the user events. `DeletePatientAsWritten` extends `history` too. For an id in stored form it keeps `Replays`. For another spelling of a stored id, the replay breaks.

On top of these, each dashboard's reducer is proved to keep its list equal to the store over any sequence of events that replays:

- `NurseDashboard.TracksLog`;
- `UserDashboard.TracksLog`, which also keeps the list newest first;
- the admin roster converges after the two broadcasts of a registration or a deletion.

`Clients.NurseListConverges` and `Clients.EncoderListConverges` apply this to the clinic's own log. A list that matched the store after the log's first k broadcasts, patched by every later broadcast, lists exactly the current store.

The TV board (`tv_display.dfy`) keeps the source's imperative shape:

- a loop builds the groups map;
- a loop computes the alert flag and the new remembered names.

Both are proved against pure specifications. `Board` is the last three patients of a cubicle, reversed. `RemembersFirst` is the remembered-name update.

The model follows what the code does, even where the intended behaviour is different:

- `PUT /api/patients/:id` writes the given fields verbatim, with no enum validation. An out-of-catalog priority, cubicle or status can be stored.
- A malformed id on that route gives a cast error and status 500. The intended behaviour is to refuse a malformed id with 400 before any lookup, as `DELETE` does.
- `POST /api/patients` with a priority or cubicle outside the schema's enums fails at save and returns 500, not 400.
- The `userAdded` broadcast carries the whole saved document, including the password hash (`AdminDashboard.AddedEntryShowsHash`).
- `DELETE /api/users/:id` deletes any user, the default administrator included. Only the admin dashboard refuses, in `AdminDashboard.RemoveRequest`.

Modelling choices:

- A request field that is missing or falsy in JavaScript is the empty string.
- In an update body, an absent key is `None`.
- The id the database driver would generate for a new document is a method parameter in the driver's form (24 lower-case hexadecimal digits, `IsStoredId`).
- `ObjectId.isValid` (`IsObjectId`) accepts 24 hexadecimal digits in either case. `findById` and `findByIdAndUpdate` cast the URL id to an ObjectId, which ignores that case, so the handlers look up `Canonical(id)`, the id with its letters lower-cased.
- bcrypt's compare is the class constant `passwordMatches`, and its hash output is a parameter.
- The JWT is the value `Token(userId, role)`.

## Model

| member | source | states |
|---|---|---|
| Records.ApplyUpdate | backend/server.js:237-243 | The update keeps id and `createdAt`. Each field present in the body takes the given value verbatim. Each absent field keeps its old value. |
| Records.IsObjectId | backend/server.js:183 | `isValid` accepts exactly 24 hexadecimal digits in either case, so it accepts every id in the driver's form. |
| Records.Canonical | backend/server.js:187 | The cast lower-cases each hexadecimal letter and keeps the length. It maps exactly the valid ids to ids in the driver's form, and it is the identity on those. |
| Records.SchemaAccepts | backend/server.js:46-52 | The validators accept a new patient only when the name is non-empty and priority and cubicle are non-empty values of their enums. |
| Records.MissingField | backend/server.js:220-222 | A request the schema accepts never trips the missing-field guard. Past the guard, the schema accepts exactly when priority and cubicle are enum values. |
| Records.PublicView | backend/server.js:158 | The `-password` projection differs from the full document and is the full document less its password. |
| Records.ActiveRecords | backend/server.js:286 | The active queue's records are exactly the stored records whose status is not "done", unchanged. |
| Records.RosterUsernames | backend/server.js:158 | A roster snapshot lists exactly the usernames of the user store. |
| Records.FilterNewestFirst | backend/server.js:286-288 | Dropping records from a newest-first list leaves it newest first. |
| Records.ListsLength | backend/server.js:208 | A list that mirrors a store has one entry per stored record. |
| Records.AppendListsStore | frontend/src/NurseDashboard.jsx:22 | Appending a record the store did not hold keeps the list equal to the store with that record added. |
| Records.PrependListsStore | frontend/src/UserDashboard.jsx:26 | Prepending a record the store did not hold keeps the list equal to the store with that record added. |
| Records.ReplaceListsStore | frontend/src/NurseDashboard.jsx:23-25 | Replacing the entry of a stored record keeps the list equal to the store with that record updated. |
| Records.RemoveListsStore | frontend/src/NurseDashboard.jsx:26-28 | Dropping an id keeps the list equal to the store without that id, each record once. |
| Lists.Filter | frontend/src/NurseDashboard.jsx:81-82 | The result is never longer than the input, holds exactly the input's elements that the test accepts, and equals the input when every element is accepted. |
| Lists.FilterMultiset | frontend/src/NurseDashboard.jsx:81-82 | `filter` keeps each accepted element as many times as it occurs and drops every other occurrence. |
| Lists.FilterKeepsOrder | frontend/src/NurseDashboard.jsx:27 | Two kept elements keep their relative order. |
| Lists.FilterPairwise | frontend/src/UserDashboard.jsx:36 | A relation between every earlier and later element survives filtering. |
| Lists.Append | frontend/src/NurseDashboard.jsx:22 | `[...prev, x]` grows the list by one, puts the new element last and keeps the earlier entries unchanged and in order. |
| Lists.ReplaceKey | frontend/src/NurseDashboard.jsx:23-25 | The `map` replacement keeps the length. Every entry with the key becomes the new value, every other entry is unchanged, and a key no entry has leaves the list equal. |
| Lists.RemoveKey | frontend/src/NurseDashboard.jsx:26-28 | The id filter drops exactly the entries with that key, keeps the others' multiplicities, and is the identity when no entry has the key. |
| Lists.RemoveKeyKeepsOrder | frontend/src/NurseDashboard.jsx:26-28 | Two entries the id filter keeps stay in their relative order. |
| Server.InsertNewestFirst | backend/server.js:208 | Inserting a record with a fresh `createdAt` grows the list by one, adds exactly that record and keeps it newest first. |
| Server.Clinic.constructor | backend/server.js:39-53 | The clinic starts with empty collections, an empty event log and a history holding only the empty store, and satisfies the store invariant. |
| Server.Clinic.UsernameTaken | backend/server.js:148-151 | `findOne({ username })` finds a user exactly when the name is one of the stored usernames. |
| Server.Clinic.Broadcast | backend/server.js:157-159 | A broadcast of a user event appends that event, leaves the collections and the clock as they were, and keeps the log replaying to the store. |
| Server.Clinic.AddPatient | backend/server.js:216-233 | A missing field gives 400. An out-of-enum value, or an id already in use, gives 500. Otherwise the result is 201, and the handler stores exactly one "waiting" record that is newer than every other and emits one `newPatient` carrying it. Errors change nothing. |
| Server.Clinic.UpdatePatient | backend/server.js:235-255 | A malformed id gives 500 and an id whose cast matches no record gives 404, both with no change and no event. Success replaces only the matched record with the update (id and `createdAt` kept), emits one `updatePatient` with the new record and extends the history. |
| Server.Clinic.DeletePatient | backend/server.js:257-282 | A malformed id gives 400 and an id whose cast matches no record gives 404, neither changing anything. Success removes only the matched record, emits one `removePatient` with that record's stored id and keeps the log replaying to the store. |
| Server.Clinic.DeletePatientAsWritten | backend/server.js:262-277 | As written, the same codes and the same removal, but the broadcast carries the id as typed in the URL. The handler keeps the invariant when the id is in stored form. When it is another spelling of a stored id, the log no longer replays to the store. |
| Server.Clinic.GetPatients | backend/server.js:206-214 | The result lists every stored record exactly once, newest first. |
| Server.Clinic.GetQueue | backend/server.js:284-295 | The result lists exactly the records whose status is not "done", each once, newest first. |
| Server.Clinic.GetUsers | backend/server.js:168-176 | The result lists every user exactly once, without the password. |
| Server.Clinic.Register | backend/server.js:140-166 | A missing field, or a username that is taken, gives 400. An invalid role, or an id in use, gives 500. The result is 201 exactly when all fields are present, the name is free, the role is valid and the id is new. Then exactly one user is added with the hashed password, and `userAdded` with the full document is emitted, followed by `usersUpdated` with the new roster. Errors change nothing. |
| Server.Clinic.DeleteUser | backend/server.js:178-204 | An invalid id gives 400 and an id whose cast matches no user gives 404. Success removes only the matched user, whatever its name. It then emits `userRemoved` with the id as typed, followed by `usersUpdated` with the new roster. |
| Server.Clinic.Login | backend/server.js:108-138 | A missing field gives 400. The result is 200 exactly when some user with that name has a matching password; then the session carries that user's id, role and public fields, and one `userLoggedIn` is emitted. Anything else gives 401 with no event. |
| Server.DeleteTwice | backend/server.js:257-282 | Deleting the same id twice gives 404 the second time, so `removePatient` fires at most once, and the record is gone afterwards. |
| Server.DoneLeavesQueue | backend/server.js:284-295 | A patient added to an empty clinic is the queue's single waiting entry. Setting its status to "done" empties the queue. |
| Server.DoneIsInactive | backend/server.js:286 | A store whose records are all "done" has an empty active queue. |
| Server.NewestFirstIds | backend/server.js:208 | A strictly newest-first list holds no record twice. |
| TvDisplay.OfGroup | frontend/src/pages/TVDisplay.jsx:30-32 | A group's candidates are exactly the queue's patients whose cubicle, or "Unassigned" when it is blank, is the key. |
| TvDisplay.GroupKeyNames | frontend/src/pages/TVDisplay.jsx:30 | Every patient gets a non-empty key: its own cubicle, or "Unassigned" for a blank one. |
| TvDisplay.AddToGroupsShape | frontend/src/pages/TVDisplay.jsx:29-34 | One step adds the patient's key if missing and leaves every other group unchanged. The patient's group then starts with the patient, holds at most three, and goes on with the old group's first entries. |
| TvDisplay.BoardSnoc | frontend/src/pages/TVDisplay.jsx:31-33 | One reduce step puts the patient in front of its group and cuts the group to three. Other groups are unchanged. |
| TvDisplay.GroupStep | frontend/src/pages/TVDisplay.jsx:30-34 | If the accumulator holds the boards of a queue prefix, one more reduce step leaves it holding the boards of the prefix extended by that patient. |
| TvDisplay.ReducedIsBoards | frontend/src/pages/TVDisplay.jsx:29-35 | After the reduce has visited any prefix, the accumulator has exactly one non-empty group per key in that prefix, and each group is its board. |
| TvDisplay.GroupQueue | frontend/src/pages/TVDisplay.jsx:29-35 | The imperative reduce yields exactly one non-empty group per key that occurs. Each group is the last min(3, n) of that key's patients, in reverse queue order. |
| TvDisplay.BoardShape | frontend/src/pages/TVDisplay.jsx:29-35 | A group has min(3, n) entries, and entry i is the cubicle's (n-1-i)-th patient in queue order. |
| TvDisplay.BoardCapped | frontend/src/pages/TVDisplay.jsx:33 | No group holds more than three patients. |
| TvDisplay.BoardMembers | frontend/src/pages/TVDisplay.jsx:29-35 | Every grouped patient comes from the queue and has that group's cubicle. |
| TvDisplay.OfGroupNewestFirst | frontend/src/pages/TVDisplay.jsx:30-32 | Fed the newest-first queue, the candidates of each group stay newest first. |
| TvDisplay.BoardOldestFirst | frontend/src/pages/TVDisplay.jsx:29-35 | Fed the newest-first queue, each group is in ascending `createdAt` order. |
| TvDisplay.BoardKeepsEarliest | frontend/src/pages/TVDisplay.jsx:29-35 | Fed the newest-first queue, every patient a group drops is newer than every patient it keeps, so the group holds the earliest arrivals. |
| TvDisplay.ShownIn | frontend/src/pages/TVDisplay.jsx:37-39 | Filtering an order keeps exactly its entries with a non-empty group, in that order. |
| TvDisplay.DisplayedCubicles | frontend/src/pages/TVDisplay.jsx:24-39 | The shown cubicles are exactly the catalog's cubicles with a non-empty group, in the board's fixed order (MESRU before MENTAL). "Unassigned" is never shown. |
| TvDisplay.RemembersStep | frontend/src/pages/TVDisplay.jsx:44-48 | Visiting one more cubicle either records its first name, or needs no record when nothing changed. |
| TvDisplay.AlertPass | frontend/src/pages/TVDisplay.jsx:42-49 | Over a run of shown cubicles, the alert plays iff one of them has a non-empty first name that differs from the remembered one. Afterwards each such cubicle remembers its current first name, and every other cubicle keeps its remembered value or its absence. |
| TvDisplay.AlertEffect | frontend/src/pages/TVDisplay.jsx:37-55 | Run over `cubiclesWithPatients`, the alert plays iff some displayed cubicle changed its non-empty first name, and the remembered names are updated for exactly those cubicles. |
| NurseDashboard.Apply | frontend/src/NurseDashboard.jsx:30-32 | Only the three patient events change the list. `newPatient` appends its record, `updatePatient` keeps the length, and `removePatient` keeps exactly the entries with another id. |
| NurseDashboard.TracksStore | frontend/src/NurseDashboard.jsx:22-28 | A list equal to the store stays equal after any event the server emits. |
| NurseDashboard.TracksLog | frontend/src/NurseDashboard.jsx:19-38 | Replaying any run of the server's event log keeps the list equal to the store. |
| NurseDashboard.LowerChar | frontend/src/NurseDashboard.jsx:82 | Letters A to Z map to their lower-case forms; every other character is kept. |
| NurseDashboard.Lower | frontend/src/NurseDashboard.jsx:82 | Lower-casing keeps the length and lower-cases each character. |
| NurseDashboard.IncludesIff | frontend/src/NurseDashboard.jsx:82 | `includes` is true exactly when the query occurs as a contiguous slice of the name. |
| NurseDashboard.Includes | frontend/src/NurseDashboard.jsx:82 | A query longer than the name never occurs in it, and a name always contains itself. |
| NurseDashboard.IncludesEmpty | frontend/src/NurseDashboard.jsx:82 | An empty query occurs in every name. |
| NurseDashboard.Insert | frontend/src/NurseDashboard.jsx:83 | Inserting into an ascending list adds exactly that entry and keeps `createdAt` ascending. |
| NurseDashboard.InsertMultiset | frontend/src/NurseDashboard.jsx:83 | Insertion adds exactly one occurrence of the entry. |
| NurseDashboard.SortByCreated | frontend/src/NurseDashboard.jsx:83 | Sorting keeps the length and the members and orders `createdAt` ascending. |
| NurseDashboard.SortMultiset | frontend/src/NurseDashboard.jsx:83 | Sorting is a permutation. |
| NurseDashboard.SortedIsUnique | frontend/src/NurseDashboard.jsx:83 | With distinct `createdAt`, two ascending arrangements of the same entries are equal, so the shown order does not depend on the sort algorithm. |
| NurseDashboard.FilteredPatients | frontend/src/NurseDashboard.jsx:80-83 | Every row comes from the list, is in the selected cubicle or "all" is selected, and contains the query case-insensitively. Every such entry is shown, and the rows are in ascending `createdAt` order. |
| NurseDashboard.FilteredPermutation | frontend/src/NurseDashboard.jsx:80-83 | The rows are a permutation of the matching entries: each as often as it occurs, and the rest not at all. |
| NurseDashboard.ShowAll | frontend/src/NurseDashboard.jsx:80-83 | With "all" and an empty query nothing is dropped. |
| NurseDashboard.StartEdit | frontend/src/NurseDashboard.jsx:150-155 | The edit form starts from the row's name, priority and cubicle. |
| NurseDashboard.EditChange | frontend/src/NurseDashboard.jsx:50-53 | An input change sets its own field and keeps the other two. |
| NurseDashboard.SaveEdit | frontend/src/NurseDashboard.jsx:55-62 | With no row being edited nothing is sent. Otherwise the body goes to that row's id and carries name, priority and cubicle, never a status. |
| NurseDashboard.SaveEditKeepsStatus | frontend/src/NurseDashboard.jsx:58-62 | Applying the saved body keeps id, status and `createdAt` and writes the three form fields. |
| NurseDashboard.UntouchedEditIsIdentity | frontend/src/NurseDashboard.jsx:150-155 | Opening the editor and saving without a change leaves the record as it was. |
| NurseDashboard.SelectsMatchSchema | frontend/src/NurseDashboard.jsx:16-17 | The selects offer only schema values, so an edit through them keeps priority and cubicle in the schema's enums. |
| UserDashboard.OnNewPatient | frontend/src/UserDashboard.jsx:25-27 | The record is prepended and the rest follow unchanged. A newest-first list with a newest record stays newest first. |
| UserDashboard.Apply | frontend/src/UserDashboard.jsx:25-37 | Only the three patient events change the list. `newPatient` puts its record in front, `updatePatient` keeps the length, and `removePatient` keeps exactly the entries with another id. |
| UserDashboard.NewIsNewest | frontend/src/UserDashboard.jsx:26 | The server stamps a new record later than every stored one, so prepending it keeps the list newest first. |
| UserDashboard.UpdateNewestFirst | frontend/src/UserDashboard.jsx:29-33 | An update keeps `createdAt`, so replacing the entry keeps the list newest first. |
| UserDashboard.TracksNew | frontend/src/UserDashboard.jsx:25-27 | After `newPatient` the list still mirrors the store, newest first. |
| UserDashboard.TracksUpdate | frontend/src/UserDashboard.jsx:29-33 | After `updatePatient` the list still mirrors the store, newest first. |
| UserDashboard.TracksRemove | frontend/src/UserDashboard.jsx:35-37 | After `removePatient` the list still mirrors the store, newest first. |
| UserDashboard.TracksStore | frontend/src/UserDashboard.jsx:25-37 | A newest-first list equal to the store stays so after any event the server emits. |
| UserDashboard.TracksLog | frontend/src/UserDashboard.jsx:22-44 | Replaying any run of the event log keeps the list equal to the store and newest first. |
| UserDashboard.TrimStart | frontend/src/UserDashboard.jsx:60 | The result is a suffix that starts with a non-blank character, and everything cut off is white space. |
| UserDashboard.TrimEnd | frontend/src/UserDashboard.jsx:60 | The result is a prefix that ends with a non-blank character, and everything cut off is white space. |
| UserDashboard.Trim | frontend/src/UserDashboard.jsx:60 | `trim` never lengthens and leaves no white space at either end. A name without white space is unchanged. |
| UserDashboard.TrimEmpty | frontend/src/UserDashboard.jsx:60 | A name trims to nothing exactly when all of it is white space. |
| UserDashboard.SubmitRequest | frontend/src/UserDashboard.jsx:59-67 | A name that trims to nothing sends no request. Otherwise the request carries the form as typed, with the name untrimmed. |
| UserDashboard.AfterAdd | frontend/src/UserDashboard.jsx:65-76 | A successful add resets the form to "", "None" and "Cubicle 1"; a failed one keeps it. |
| UserDashboard.OptionsInSchema | frontend/src/UserDashboard.jsx:19-20 | Every priority and cubicle the add form's selects offer is a value of the schema's enums. |
| UserDashboard.SubmittedFormIsAccepted | frontend/src/UserDashboard.jsx:59-67 | A request the guard lets through with select-chosen values passes the server's required-field and enum checks. |
| UserDashboard.ResetFormIsRefused | frontend/src/UserDashboard.jsx:68-70 | After the reset, submitting again sends nothing. |
| UserDashboard.BlankNameRefusedOnlyByClient | frontend/src/UserDashboard.jsx:60-63 | A name of spaces is refused by the client, although the server's checks would accept it. |
| AdminDashboard.Apply | frontend/src/AdminDashboard.jsx:20-34 | `usersUpdated` replaces the list with the roster. `userAdded` appends its entry. `userRemoved` and `userLoggedOut` keep exactly the entries with another id. Every patient event leaves the list unchanged. |
| AdminDashboard.SnapshotWins | frontend/src/AdminDashboard.jsx:28-30 | After `usersUpdated` the list equals the snapshot, whatever it held before. |
| AdminDashboard.ApplyAllConcat | frontend/src/AdminDashboard.jsx:17-34 | Replaying two runs of events one after the other is replaying their concatenation. |
| AdminDashboard.LastSnapshotWins | frontend/src/AdminDashboard.jsx:28-30 | Any log that ends in a snapshot leaves the list equal to that snapshot. |
| AdminDashboard.ConvergesAfterRegister | frontend/src/AdminDashboard.jsx:20-30 | After the `userAdded` / `usersUpdated` pair of a registration, the list is the server's roster, whatever it held before. |
| AdminDashboard.ConvergesAfterDelete | frontend/src/AdminDashboard.jsx:24-30 | After the `userRemoved` / `usersUpdated` pair of a deletion, the list is the server's roster. |
| AdminDashboard.DuplicateAfterAdd | frontend/src/AdminDashboard.jsx:20-22 | A list that already shows the new user holds two entries with its id between the two broadcasts. |
| AdminDashboard.AddedEntryShowsHash | frontend/src/AdminDashboard.jsx:20-22 | The appended `userAdded` entry, which carries the password hash, is never an entry of a roster snapshot. |
| AdminDashboard.RemoveRequest | frontend/src/AdminDashboard.jsx:88-99 | The default administrator's name sends no request; any other sends one for that id exactly when the prompt is confirmed. |
| AdminDashboard.DefaultAdminKept | frontend/src/AdminDashboard.jsx:89-92 | Clicking remove on the default administrator's entry never reaches the server. |
| Clients.NurseListConverges | frontend/src/NurseDashboard.jsx:19-32 | A nurse list that matched the store after the first k broadcasts, patched by the rest of the log, lists exactly the current store. |
| Clients.EncoderListConverges | frontend/src/UserDashboard.jsx:22-37 | The same for the encoder's list, which a newest-first start keeps newest first. |
| Clients.UpperIdNamesStoredId | backend/server.js:262-267 | The upper-case spelling of a stored id passes `isValid` and casts to that stored id, yet is a different string. |
| Clients.RawRemovalKeepsRow | frontend/src/NurseDashboard.jsx:26-28 | When the broadcast id is a different spelling of a listed record's id, both dashboards keep the row, and the list no longer matches the store the deletion left. |
| Clients.StoredRemovalDropsRow | frontend/src/UserDashboard.jsx:35-37 | Broadcasting the deleted record's stored id drops the row from both dashboards. |

## Findings

| source | as written | input that shows it | evidently intended | confidence | as-written member | corrected member |
|---|---|---|---|---|---|---|
| backend/server.js:276 | `removePatient` carries the URL id as typed, while `findById` matched it ignoring the case of its hexadecimal letters | `DELETE /api/patients/5F000000000000000000000A` for a record stored as `5f000000000000000000000a`: 200, the record is deleted, and every dashboard keeps its row | broadcast the deleted record's own id | not executed | Server.Clinic.DeletePatientAsWritten, Clients.RawRemovalKeepsRow | Server.Clinic.DeletePatient, Clients.StoredRemovalDropsRow |

## Left out

- HTTP routing, CORS, the socket transport and JSON encoding: each handler is a method, and each broadcast is an entry of `events`.
- The MongoDB connection, drivers and query engine: collections are maps, and query results are computed from them.
- Store failures, the 500s they cause, and the error text a 500 on add returns.
- Concurrency: handlers run one at a time, and the dashboards are fed one event at a time.
- The start-up upsert of the default administrator (`ensureAdminExists`): it is bootstrapping.
- bcrypt and JWT internals: they are the `passwordMatches` constant, a `hashed` parameter and the `Token` value.
- Token expiry is not modelled.
- The `authenticate` middleware: it does nothing, so every route is open.
- Rendering, styling, the TV grid-class choice, `tailwind.config.js` and `Navbar.jsx`.
- Polling, `window.confirm`, `alert`, audio playback, `localStorage`, navigation and the loading and error flags.
- The initial `fetch`/`axios` list loads, `Login.jsx` and `App.jsx`.
- `GET /api/queue`'s `populate("cubicle")`: it has no effect on a string field.
- Mongoose's 12-character ObjectId form: a valid id is exactly 24 hexadecimal digits.
- The initial list loads: each convergence lemma assumes a list that matched the store at some point of the log, and the database starts empty.
- Server.Clinic.DeleteUser: `userRemoved` carries the id as typed, as in the source, so between the two broadcasts the admin list may keep an entry deleted through an upper-case spelling. The `usersUpdated` snapshot that follows repairs it (`AdminDashboard.ConvergesAfterDelete`).
- JSON `null` and non-string request fields: fields are strings, and "" stands for a missing one.
- Server.Clinic.AddPatient: `createdAt` comes from a strictly increasing clock, so two records created in the same millisecond, which would tie in the source, are not modelled.
- Server.Clinic.GetUsers: the collection's natural order is not modelled; the roster is any order with each user once.
- TvDisplay.GroupQueue: groups live in a map, so JavaScript's prototype keys on the plain accumulator object (a cubicle named "constructor") are not modelled.
- NurseDashboard.LowerChar: case folding covers A to Z only, not the full Unicode `toLowerCase`.
- NurseDashboard.SortByCreated: it is an insertion sort. Ties in `createdAt` keep input order, as the engine's stable sort does; `SortedIsUnique` shows that ties cannot matter when `createdAt` is distinct.
- The nurse dashboard's `socket.emit` of `updatePatient` and `removePatient` toward the server: the server registers no handler for them, so nothing happens.
- The encoder and nurse `removePatient` click handlers: they are a prompt and a `DELETE` request, covered by `Server.Clinic.DeletePatient`.
- The encoder's edit modal: it sends the whole edit form, like the nurse's `saveEdit`, which is modelled.
- The admin registration form and its reset, and the logout button: they are network submission and storage.
- The `userLoggedOut` event: the admin dashboard listens for it, but the server never emits it. It is an event kind of the model, and the server methods never produce it.
- TvDisplay.AlertPass: the queued `setPreviousFirstPatients` updates are folded into one `remembered` value after the pass; when React applies them and re-renders is not modelled.
