# Event back end: registrations, partial updates and the authorization chain

A model of the core of an Express/PostgreSQL back end. Users create gaming events, each tied to an address and a game category. Users join events through registrations ("inscriptions"), and an event holds at most `nbMaxPlayer` of them.

The store is an immutable record, `Tables.Db`. It holds one sequence of row records per table and the counter that serial keys are drawn from. Every SQL statement is a pure function from one store to the next. A handler returns an `Http.Response`: the store after COMMIT (or the unchanged store after ROLLBACK or an error) and the reply it sent. A statement that throws is a `Wrappers.Result` error.

The model covers three pieces:

- **Registrations** (`InscriptionDB`, `InscriptionController`).
  - The store operations of the registration relation.
  - The join decision: a full event is refused first, a duplicate pair next, and otherwise the row is inserted and committed.
  - The invariant `InscriptionDB.Inv`: no event holds more than `nbMaxPlayer` registrations, and no (user, event) pair is registered twice.
  - Joins, removals by id, leaves and event clears all preserve `Inv`, in any sequence.
  - The partial update of a registration does not preserve it.
- **Partial-update builders** (`SqlUpdate`, and its use in `EventDB`, `AddressDB`, `UserDB`, `GameCategoryDB`, `InscriptionDB`).
  - Each builder takes optional arguments. Each defined argument pushes its value onto `params` and pushes ` column = $k ` onto the SET list, where `k` is its 1-based position in `params`.
  - Each builder is proved against a reference: write each defined argument, in argument order, into every row the WHERE clause targets.
  - The query is modelled as its list of fragments, not as text.
- **The authorization chain and the handlers' guards** (`UserDB.GetUser`, `UserController.Login`, `IdentificationJWT`, `Authorization`, `AuthChain`).
  - A login issues a token. `identification` turns a `Bearer` header back into a session. `mustBeAdmin` and `mustBeUser` gate the routes.
  - The event and user handlers check owner-or-admin, "at least one field", existence, and the order of the delete cascades.

Foreign calls are parameters of the functions that use them:

- `jwt.sign` is `sign`, and `jwt.verify` is `verify`, which yields an `IdentificationJWT.Verdict`.
- `getHash` is `hash`, and `compareHash` is `compareHash`.
- `new Date()` is `now`, and `new Date(x)` is `toDate`.

`pool.connect`, `client.release` and console logging are left out.

Some helpers are called by the handlers but are not defined in the data-access modules. Each is modelled with the meaning its name and its siblings give it:

- `eventExist` is `EventDB.EventExist`.
- `deleteUsersEvent` is `EventDB.DeleteUsersEvent`.
- `deleteMessageWithEvent` is `MessageDB.DeleteMessageWithEvent`.

As written, each of those calls throws a TypeError. The members whose names end in `AsWritten` model the handlers with that throw. Those ending in `GivenEventExist` model them with only `eventExist` defined. Those without a suffix model them with every helper defined.

node-postgres sends every parameter as text, and Postgres reads that text by the column's type:

- An integer column reads an optional sign and decimal digits (`Tables.IntOf`).
- The boolean `isVerified` reads Postgres's boolean words (`Tables.BoolOf`).
- Text and date columns take any value.
- The e-mail column stores the parameter's text (`Tables.TextCell`). `WHERE email = $1` and the unique constraint compare texts, and NULL equals nothing, not even NULL (`Tables.TextEquals`). So the number `5` and the string `"5"` are the same e-mail, any number of accounts may have no e-mail, and a NULL e-mail finds no account.

Three behaviours of the registration handlers. The first is the subject of the open todo at controleur/inscriptionController.js:80, which asks for a more precise error when the registration does not exist.

- Removing a registration by an id that no row has answers 204 and changes nothing (`InscriptionController.DeleteUserFromEvent`).
- A duplicate join answers 418.
- An update of a registration with neither field defined sends no response at all. An update of an absent registration answers 204 and changes nothing (`InscriptionController.UpdateEventInscription`).

## Model

| member | source | states |
|---|---|---|
| Tables.DeleteSpec | modele/inscriptionDB.js:8-10 | a DELETE removes every row its condition dooms and keeps every other row with its multiplicity |
| Tables.FirstMatch | modele/eventDB.js:17-20 | `rows[0]` of a filtered SELECT: the first matching row, and none exactly when no row matches |
| Tables.DigitsOfShow | controleur/eventController.js:603 | the decimal digits of a number read back as that number |
| Tables.ParseShow | controleur/eventController.js:603 | a path id written as text reads back, in an integer column, as the number it spells |
| Tables.TextOf | modele/userDB.js:55-57 | the text a parameter is sent as: a number as digits that an integer column reads back as it, a string as itself, NULL as no text |
| Tables.TextCell | modele/userDB.js:37-42 | what a text column stores: text, or NULL exactly for NULL, with the text the parameter was sent as |
| Tables.CellFound | modele/userDB.js:55-57 | a stored e-mail is found by the parameter it was stored from iff that was not NULL |
| Tables.TextEqualsAcrossTypes | modele/userDB.js:55-57 | a number equals its decimal text and `true` its word, and NULL does not equal NULL |
| Tables.BoolOf | modele/eventDB.js:81-85 | how the boolean `isVerified` column reads a parameter: a flag is itself; 1 and the words true, t, yes, y, on, 1 read as true; 0 and false, f, no, n, off, 0 read as false; null, other numbers and other text are refused |
| SqlUpdate.SetClauseOf | modele/userDB.js:4-31 | the builder's arrays: the k-th fragment names the k-th defined argument and binds `$k+1`, and parameter k holds that argument's value |
| SqlUpdate.SlotOfDefined | modele/userDB.js:8-27 | a defined argument contributes ` column = $k ` with `k` its 1-based rank among the defined arguments, and `params[k-1]` is its value |
| SqlUpdate.AbsentWhenUndefined | modele/userDB.js:8-27 | with distinct columns, an undefined argument's column appears in no fragment |
| SqlUpdate.FragmentOrigin | modele/userDB.js:8-27 | every fragment comes from some defined argument of the same column |
| SqlUpdate.RankOrder | modele/userDB.js:8-27 | fragments keep argument order: a defined argument's fragment precedes that of every later argument |
| SqlUpdate.ParamCount | modele/userDB.js:8-27 | `params` holds exactly as many values as there are defined arguments |
| SqlUpdate.TwoFieldLayout | modele/gameCategoryDB.js:15-22 | the layout of a two-argument builder stated on the arguments: slots 1 and 1+N(first), nothing for undefined ones |
| SqlUpdate.FiveFieldLayout | modele/addressDB.js:27-46 | the layout of a five-argument builder: each defined argument at the slot after the defined arguments before it |
| SqlUpdate.ApplySetClause | modele/userDB.js:28-30 | running the built SET list on a row writes each defined argument, in argument order, and nothing else |
| SqlUpdate.ExecUpdate | modele/addressDB.js:48-51 | an UPDATE fails on an empty SET list, a value a column refuses, or an undefined key in WHERE; otherwise it patches exactly the targeted rows |
| SqlUpdate.NonEmptyClause | modele/addressDB.js:48 | the SET list is empty exactly when no argument is defined |
| SqlUpdate.ClauseAccepted | modele/addressDB.js:48-51 | every fragment's value fits its column exactly when every defined argument fits its column |
| SqlUpdate.ExecBuilt | modele/addressDB.js:23-52 | the built update succeeds iff some argument is defined, all fit and the WHERE key is defined; it then equals the reference partial update on the targeted rows |
| UserDB.ModifyUserQuery | modele/userDB.js:4-31 | `modifyUser` updates `users` with `WHERE userId = <id>` and its fragments are numbered by position |
| UserDB.ModifyUserLayout | modele/userDB.js:8-27 | the order firstName, name, birthDate, password, photoPath, each at its position in `params`; the password's parameter is its hash |
| UserDB.ModifyUserOmits | modele/userDB.js:8-27 | an undefined argument contributes no fragment |
| UserDB.ModifyUser | modele/userDB.js:4-31 | succeeds iff some field is defined and the id is; the user with that id gets every defined field, the password as its hash, and no other row or table changes |
| UserDB.UserUpdateOk | modele/userDB.js:28-30 | when `modifyUser`'s statement succeeds, in terms of its arguments |
| UserDB.UserUpdateRows | modele/userDB.js:28-30 | what `modifyUser`'s statement does to each user row: the patch on the id's row, nothing on the others |
| UserDB.AddUser | modele/userDB.js:37-42 | one new user under the drawn key, not an administrator, storing the hash of the password and the text of the e-mail; fails iff some account's e-mail has the same text, so a NULL e-mail never fails |
| UserDB.DeleteUser | modele/userDB.js:45-51 | the addresses of the user's events go, then the user row; all other rows stay |
| UserDB.UserExist | modele/userDB.js:78-83 | true iff some user row has that id |
| UserDB.Authenticate | modele/userDB.js:55-71 | succeeds iff the first user whose e-mail has the parameter's text has a hash matching the password; the result is that user; a NULL e-mail finds no row and fails |
| UserDB.GetUserAsWritten | modele/userDB.js:68-76 | as written: whenever the credentials check out the account type is "user", whatever the row says |
| UserDB.GetUser | modele/userDB.js:68-76 | reading `isadmin` off the first row: the type is "admin" iff that user is an administrator |
| UserDB.AddThenAuthenticate | modele/userDB.js:37-76 | an account just added authenticates with its password iff it was given an e-mail, and then as a "user", as the row just inserted |
| EventDB.GetEventOwner | modele/eventDB.js:17-20 | the creator of a row with that id, and an error iff no row has it; under the primary key, the creator of that event |
| EventDB.EventExist | controleur/eventController.js:154 | fails iff the id is not numeric; otherwise true iff some event row has that id |
| EventDB.InsertEvent | modele/eventDB.js:32-39 | one new event under the drawn key, created now, at the given date and place, not verified (the 0 it is given, read as false), no admin message; fails iff the creator, category or capacity does not read as an integer, and stores the integers read |
| EventDB.InsertEventFresh | modele/eventDB.js:32-39 | on a store whose keys were all drawn, the new event's key is used by no event, and every key stays drawn |
| EventDB.InsertEventPreservesInv | modele/eventDB.js:32-39 | a new event with a capacity of at least zero, under a key no registration names, keeps the registration invariant |
| EventDB.DropPlaces | modele/eventDB.js:43 | the addresses the event's rows point to go, and only those |
| EventDB.DropEvent | modele/eventDB.js:46-47 | the event rows with that id go, and only those |
| EventDB.DeleteEvent | modele/eventDB.js:42-48 | the event's address, its messages, its registrations and the event itself go; every other row stays |
| EventDB.DeleteEventOrder | modele/eventDB.js:42-48 | the cascade's order matters: the event's address is gone after `deleteEvent`, but would survive if the event row were deleted first |
| EventDB.DeleteUsersEvent | controleur/userController.js:64 | the user's events go with their addresses, messages and registrations; nothing else changes |
| EventDB.ModifyEventQuery | modele/eventDB.js:52-80 | `modifyEvent` updates `event` with no WHERE clause, fragments numbered by position |
| EventDB.ModifyEventLayout | modele/eventDB.js:56-75 | the order gameCategoryId, eventDate, place, eventDescription, nbMaxPlayer, each at its position in `params` |
| EventDB.ModifyEventOmits | modele/eventDB.js:56-75 | an undefined argument contributes no fragment |
| EventDB.PatchEvents | modele/eventDB.js:52-80 | the built event update under a given WHERE: succeeds iff some argument is defined and the category, place and capacity, when defined, read as integers; patches exactly the targeted rows |
| EventDB.EventUpdate | modele/eventDB.js:77-79 | the built event update on the event rows, row by row |
| EventDB.PatchEventsOk | modele/eventDB.js:77-79 | when the built event update succeeds, in terms of the arguments |
| EventDB.PatchEventsRows | modele/eventDB.js:77-79 | what the built event update does to each event row |
| EventDB.ModifyEvent | modele/eventDB.js:77-79 | as written, with no WHERE: every event row receives the patch |
| EventDB.ModifyEventById | modele/eventDB.js:52-80 | with `WHERE eventId`: only that event's rows are patched |
| EventDB.VerifyEventQuery | modele/eventDB.js:81-85 | the flag, defaulting to true, and the message, defaulting to null, as `$1`, `$2`, with `WHERE eventId` |
| EventDB.VerifyEventAsWritten | modele/eventDB.js:83 | as written, naming the column `isVerify`, which the table lacks: the statement always fails |
| EventDB.VerifyEvent | modele/eventDB.js:81-85 | writing `isVerified`: succeeds iff the flag reads as a boolean or is null (any message is text), so always when both are omitted; the event with that id stores the boolean read and the message, and nothing else changes |
| EventDB.StoredFlag | modele/eventDB.js:81-85 | the boolean column holds the boolean it read, so `"yes"`, `1` and `true` leave the same row, and null stays null |
| EventDB.VerifyRowsOk | modele/eventDB.js:81-85 | the corrected verification statement succeeds on any rows when both values fit |
| EventDB.VerifyRows | modele/eventDB.js:81-85 | the corrected verification statement sets flag and message on the event's rows only |
| AddressDB.InsertAddress | modele/addressDB.js:15-20 | one new address under a fresh key; the key reported is the one just drawn |
| AddressDB.InsertAddressFresh | modele/addressDB.js:15-20 | on a store whose keys were all drawn, the reported key is used by no address, and every key stays drawn |
| AddressDB.UpdateAddressQuery | modele/addressDB.js:23-52 | `updateAddress` always ends with `WHERE addressId = <id>`; fragments numbered by position |
| AddressDB.UpdateAddressLayout | modele/addressDB.js:27-46 | the order street, number, city, postalCode, country, each at its position in `params`; `postCode` goes to `postalCode` |
| AddressDB.UpdateAddressOmits | modele/addressDB.js:27-46 | an undefined argument contributes no fragment |
| AddressDB.UpdateAddress | modele/addressDB.js:23-52 | succeeds iff some field and the id are defined; the address with that id gets the defined fields, and nothing else changes |
| AddressDB.AddressUpdateOk | modele/addressDB.js:48-51 | when `updateAddress`'s statement succeeds |
| AddressDB.AddressUpdateRows | modele/addressDB.js:48-51 | what `updateAddress`'s statement does to each address row |
| AddressDB.DeleteAddress | modele/addressDB.js:55-57 | only the rows with that id go |
| AddressDB.DeleteAddressWithEvent | modele/addressDB.js:58-61 | the event's address goes only when the event has a registration; otherwise the store is unchanged |
| GameCategoryDB.UpdateCategoryQuery | modele/gameCategoryDB.js:11-26 | `updateCategory` ends with `WHERE gameCategoryId = <id>`; fragments numbered by position |
| GameCategoryDB.UpdateCategoryLayout | modele/gameCategoryDB.js:15-22 | description before label, each at its position in `params`; undefined ones contribute nothing |
| GameCategoryDB.UpdateCategory | modele/gameCategoryDB.js:11-26 | succeeds iff a field and the id are defined; only that category changes |
| GameCategoryDB.CategoryUpdateOk | modele/gameCategoryDB.js:23-25 | when `updateCategory`'s statement succeeds |
| GameCategoryDB.CategoryUpdateRows | modele/gameCategoryDB.js:23-25 | what `updateCategory`'s statement does to each category row |
| GameCategoryDB.CategoryExist | modele/gameCategoryDB.js:39-42 | true iff some category row has that id |
| GameCategoryDB.InsertCategory | modele/gameCategoryDB.js:35-37 | exactly one new row, under a fresh key, with the given label and description |
| GameCategoryDB.DeleteCategory | modele/gameCategoryDB.js:30-32 | only the rows with that id go |
| GameCategoryDB.InsertThenDelete | modele/gameCategoryDB.js:30-37 | a category just inserted exists, and deleting it gives back exactly the table it was inserted into |
| MessageDB.DeleteMessageWithEvent | controleur/eventController.js:165 | the event's messages go, and only those |
| InscriptionDB.CountPositive | modele/inscriptionDB.js:47-50 | a count is positive exactly when some row matches |
| InscriptionDB.EventRowsUnique | modele/inscriptionDB.js:41 | under the primary key, the join in `isNotFull` counts each registration once |
| InscriptionDB.ShrinkPreserves | modele/inscriptionDB.js:5-10 | removing registrations keeps the registration invariant |
| InscriptionDB.LinkUserEvent | modele/inscriptionDB.js:1-3 | exactly one row appended under a fresh key with that user and event; every other row unchanged; each count rises by what the row matches |
| InscriptionDB.DeleteAllFromEvent | modele/inscriptionDB.js:5-7 | every row of the event goes, every row of another event stays with its multiplicity |
| InscriptionDB.DeleteInscription | modele/inscriptionDB.js:8-10 | only the row with that id goes; an absent id leaves the store unchanged |
| InscriptionDB.UnlinkUser | modele/inscriptionDB.js:61-63 | the rows matching both user and event go; a row matching only one stays |
| InscriptionDB.GetEventFromUser | modele/inscriptionDB.js:12-14 | one event id per registration of the user, and exactly the events the user is registered in |
| InscriptionDB.IsNotFull | modele/inscriptionDB.js:40-45 | fails iff the event does not exist; otherwise true iff its registration count is below its `nbMaxPlayer` |
| InscriptionDB.InscriptionExistByEventUser | modele/inscriptionDB.js:47-50 | true iff some row has that (user, event) pair |
| InscriptionDB.InscriptionExistById | modele/inscriptionDB.js:52-55 | true iff some row has that id |
| InscriptionDB.UpdateEventInscriptionQuery | modele/inscriptionDB.js:21-38 | eventId before userId, at `$1` and `$1+N(eventId)`, undefined ones absent, then `WHERE inscriptionId` |
| InscriptionDB.PatchApplied | modele/inscriptionDB.js:25-34 | that SET list writes exactly the defined keys into a row |
| InscriptionDB.UpdateEventInscription | modele/inscriptionDB.js:21-38 | succeeds iff a field is defined and every defined field reads as an integer; rewrites only the row with that id, with the integers read, and no capacity or uniqueness check |
| InscriptionDB.InscriptionUpdateOk | modele/inscriptionDB.js:34-37 | when the registration update's statement succeeds |
| InscriptionDB.InscriptionUpdateRows | modele/inscriptionDB.js:34-37 | what the registration update's statement does to each row |
| InscriptionController.LinkUserEventAsWritten | controleur/inscriptionController.js:26-51 | as written, calling the missing `inscriptionExist`: every join answers 404 and changes nothing |
| InscriptionController.LinkUserEvent | controleur/inscriptionController.js:26-51 | 201 iff the event has room, the user is known and the pair is new; a full event is 418 before the duplicate test; the body's user defaults to the session's; a refusal changes nothing |
| InscriptionController.JoinPreservesInv | controleur/inscriptionController.js:33-44 | a join keeps capacity and pair uniqueness |
| InscriptionController.DeleteUserFromEvent | controleur/inscriptionController.js:81-93 | 204 with the registration removed; an absent id leaves the store unchanged; a non-numeric id is 500 |
| InscriptionController.RemovePreservesInv | controleur/inscriptionController.js:81-93 | a removal keeps the invariant |
| InscriptionController.JoinThenRemove | controleur/inscriptionController.js:40-44 | joining then removing the new registration by its id restores the relation, and the pair is no longer registered |
| InscriptionController.LastSeatGoesOnce | controleur/inscriptionController.js:33-44 | two users joining a one-seat event: the first gets 201, the second 418, and the event ends with one registration |
| InscriptionController.RunPreservesInv | controleur/inscriptionController.js:26-93 | any sequence of joins, removals, leaves and event clears keeps the invariant |
| InscriptionController.UpdateEventInscription | controleur/inscriptionController.js:122-145 | no reply when neither field is defined; otherwise 204 iff the id is numeric and the defined fields read as integers, and 500 with no change otherwise |
| InscriptionController.UpdateOverfills | controleur/inscriptionController.js:122-145 | a store that satisfies the invariant, and an update answered 204 that leaves an event over capacity |
| InscriptionController.UpdateEventInscriptionGuarded | controleur/inscriptionController.js:122-145 | with the join's guards: an absent registration is 404; on 204 it does what the unguarded update does |
| InscriptionController.UpdateRewritesOne | modele/inscriptionDB.js:35 | under the primary key the update rewrites exactly one row |
| InscriptionController.PatchPreservesInv | modele/inscriptionDB.js:21-38 | overwriting a row keeps the invariant when a new event has room and a new pair is unregistered |
| InscriptionController.GuardedAdmits | controleur/inscriptionController.js:122-145 | a 204 from the guarded update means the row exists, a new event had room, and a new pair was free |
| InscriptionController.GuardedUpdatePreservesInv | controleur/inscriptionController.js:122-145 | the guarded update keeps the invariant |
| EventController.InsertEvent | controleur/eventController.js:101-124 | 400 iff a required field is falsy; 201 iff the creator (defaulting to the session's user), category and capacity read as integers, committing the address and then the event at that address; on 500 nothing is stored but the address's key stays drawn |
| EventController.ZeroCapacityRefused | controleur/eventController.js:105-107 | a capacity of 0 is a bad request |
| EventController.NegativeCapacityAdmitted | controleur/eventController.js:105-107 | a capacity of -1 is accepted with 201, and the new event holds more registrations than it admits |
| EventController.InsertEventGuarded | controleur/eventController.js:101-124 | 400 iff a field is falsy or the capacity reads below one; otherwise what `insertEvent` answers |
| EventController.InsertEventGuardedPreservesInv | controleur/eventController.js:101-124 | the guarded creation keeps the registration invariant on a store whose keys were drawn |
| EventController.Cascade | controleur/eventController.js:163-168 | the handler's four deletions remove the event's address, messages, registrations and the event, and nothing else |
| EventController.DeleteEvent | controleur/eventController.js:148-183 | with `eventExist` and `deleteMessageWithEvent` defined: 400 for a non-numeric user or event id, 404 for an unknown event, 204 with the cascade for the creator or an administrator, 403 and no change otherwise |
| EventController.DeleteEventAsWritten | controleur/eventController.js:148-156 | as written: 400 for a non-numeric user or event id, and 500 for every other request; never a change |
| EventController.DeleteEventGivenEventExist | controleur/eventController.js:157-182 | with only `eventExist` defined: 500 and no change exactly where the complete handler answers 204, its reply otherwise |
| EventController.StrangerCannotDelete | controleur/eventController.js:160-173 | neither creator nor administrator: 403, store unchanged |
| EventController.CreatorDeletes | controleur/eventController.js:158-171 | the creator deletes the event and its registrations; other events stay |
| EventController.DeleteEventThrows | controleur/eventController.js:154 | the creator deleting an existing event gets 500 as written and 204 from the complete handler |
| EventController.CascadeThrows | controleur/eventController.js:165 | with `eventExist` defined, the creator's deletion still gets 500 and changes nothing, where the complete handler answers 204 |
| EventController.ModifyEventAsWritten | controleur/eventController.js:598-661 | as written: 400 without any field, otherwise 500; never a change |
| EventController.ModifyEventGivenEventExist | controleur/eventController.js:598-661 | with `eventExist` defined: 400 without any field; on an existing event a non-administrator, even its creator, is 403 and an administrator's address change is 500; a 204 leaves every event carrying the path id as its category |
| EventController.ModifyEventThrows | controleur/eventController.js:631 | the creator changing their event's capacity gets 500 as written and 204 from the corrected handler |
| EventController.ChangesAsWritten | controleur/eventController.js:638-642 | the shifted model call puts the path id in every row's category, and an address change fails |
| EventController.ModifyEventClobbers | controleur/eventController.js:640 | an administrator changing one event's capacity rewrites another event's capacity and category |
| EventController.PlaceOf | controleur/eventController.js:638-642 | the event's address: none iff the event does not exist |
| EventController.ModifyEvent | controleur/eventController.js:598-661 | 400 without fields, 404 for an unknown event, 403 iff the requester neither created it nor is an administrator; 204 iff the requester passed and the given category and capacity read as integers, with the changes of `Commit` |
| EventController.Refusal | controleur/eventController.js:606-635 | the guards: 400, then 404, then 403, in that order |
| EventController.Commit | controleur/eventController.js:636-646 | 204 iff the given category and capacity read as integers, patching only that event's row and its address's row; otherwise 500 and no change |
| EventController.EventChangesOf | controleur/eventController.js:639-640 | succeeds iff the given category and capacity read as integers; the event fields go to that event's rows only |
| EventController.AddressChangesOf | controleur/eventController.js:641-642 | always succeeds, since every address column is text; the address fields go to the event's address only |
| EventController.Changes | controleur/eventController.js:638-642 | succeed iff the given category and capacity read as integers; the two updates together touch only the event and its address |
| EventController.ModifyEventOverfills | controleur/eventController.js:634-646 | the creator lowers a registered event's capacity below its registrations: 204, and the event is over capacity |
| EventController.ModifyEventGuarded | controleur/eventController.js:598-661 | 409 and no change iff the requester passed and the new capacity is below the event's registrations; otherwise what `modifyEvent` answers |
| EventController.ModifyEventGuardedPreservesInv | controleur/eventController.js:598-661 | the guarded modification keeps the registration invariant |
| EventController.CheckEventAsWritten | controleur/eventController.js:690-718 | as written: no reply without fields, otherwise 500 whether or not the event exists; never a change |
| EventController.CheckEventGivenEventExist | modele/eventDB.js:81-85 | with `eventExist` defined: no reply without fields, 404 for an unknown event, 500 otherwise; never a change |
| EventController.CheckEvent | controleur/eventController.js:690-718 | no reply without fields, 404 for an unknown event, 204 iff the event exists and the flag reads as a boolean or is null, with only that event's flag and message set |
| EventController.MessageAloneVerifies | modele/eventDB.js:81-85 | leaving only a message also marks the event verified |
| EventController.CheckEventThrows | controleur/eventController.js:706 | an administrator's message on an existing event gets 500 as written and 204 from the corrected handler |
| UserController.LoginAsWritten | controleur/userController.js:7-31 | 400 iff e-mail or password is missing; a token iff the credentials check out, else 500; the token's status is always "user" |
| UserController.Login | controleur/userController.js:7-31 | as above, with status "admin" for administrators |
| UserController.AddUser | controleur/userController.js:33-49 | 201 with the new non-administrator user under the drawn key, or 500 iff an account's e-mail has the same text, with nothing stored but the drawn key consumed |
| UserController.SignUpThenLogin | controleur/userController.js:7-49 | a new account with an e-mail logs in at once and gets a "user" token; one signed up with a null e-mail gets 500 at login |
| UserController.FailedSignUpSkipsKey | controleur/userController.js:37-39 | a sign-up with an existing account's e-mail fails iff that e-mail is not NULL; after the failure, a sign-up with a new e-mail gets the key one past the key before the failure |
| UserController.NullEmailSignsUpTwice | controleur/userController.js:33-49 | two sign-ups without an e-mail both answer 201 and both accounts store NULL |
| UserController.NumberEmailTaken | controleur/userController.js:33-49 | a sign-up with the number n is refused with 500 when an account's e-mail is the text of n |
| UserController.AddUserChecked | controleur/userController.js:33-49 | with the e-mail looked up first by `WHERE email = $1`: 500 and no change at all iff an account's e-mail has the same text; otherwise what `addUser` answers |
| UserController.CheckedSignUpKeepsKeys | controleur/userController.js:37-39 | with the e-mail looked up first, the same first sign-up is refused with no change iff the e-mail is not NULL, and then the second gets the next key with no gap |
| UserController.DeleteUser | controleur/userController.js:58-75 | with `deleteUsersEvent` defined: 404 and no change iff the id is not numeric; otherwise 204 with the user, their events and what refers to them gone |
| UserController.DeleteUserAsWritten | controleur/userController.js:58-75 | as written: 404 for every request, and no change |
| UserController.DeleteUserThrows | controleur/userController.js:64 | an existing user's deletion keeps the user with 404 as written, and removes them with 204 when `deleteUsersEvent` is defined |
| UserController.ModifyUserAsWritten | controleur/userController.js:77-111 | as written: non-administrators always get 403, an administrator gets 400 without fields and 500 with them; never a change |
| UserController.ModifyUser | controleur/userController.js:77-111 | 403 iff the requester is neither that user nor an administrator; 400 iff no field; on 204 only that user changes |
| UserController.OwnPasswordChange | controleur/userController.js:77-111 | a user may change their own password, and only its hash is stored |
| IdentificationJWT.Split | middleware/IdentificationJWT.js:7 | the pieces hold no separator and join back to the string |
| IdentificationJWT.SplitJoin | middleware/IdentificationJWT.js:7 | splitting undoes joining pieces without the separator |
| IdentificationJWT.Admit | middleware/IdentificationJWT.js:9-15 | a decoded value becomes the session with the status as `authLevel`; expiry is 401, other JWT errors 400, anything else 500 |
| IdentificationJWT.Identification | middleware/IdentificationJWT.js:4-20 | a missing header or one without "Bearer" is 401; otherwise the second space-separated piece is verified |
| IdentificationJWT.WordThenToken | middleware/IdentificationJWT.js:6-7 | any word containing "Bearer", a space and a token hands exactly that token to `verify` |
| IdentificationJWT.BearerHeader | middleware/IdentificationJWT.js:4-12 | `Bearer <token>` as in section 2.1 of RFC 6750 is understood |
| IdentificationJWT.LooserThanScheme | middleware/IdentificationJWT.js:6 | a `NotBearer` scheme is treated like `Bearer` |
| Authorization.MustBeAdmin | middleware/Authorization.js:1-7 | `next()` iff a session exists with `authLevel` "admin", else 403 |
| Authorization.MustBeUserAsWritten | middleware/Authorization.js:9-15 | as written: 403 without a session, and a throw with one; never `next()` |
| Authorization.MustBeUser | middleware/Authorization.js:9-15 | reading `req.session`: `next()` iff the session's level is "user" or "admin" |
| AuthChain.Present | middleware/IdentificationJWT.js:4-20 | the outcome is what `identification` makes of `Bearer <token>`, and the administrator gate passes iff that outcome is a session with level "admin" |
| AuthChain.AdminLockedOut | modele/userDB.js:73 | as written, an administrator's login token carries the right user id yet is refused 403 by the administrator gate |
| AuthChain.AdminAdmitted | modele/userDB.js:73 | with `getUser` reading the first row, the gate admits a login token iff the account is an administrator |
| AuthChain.UserGateClosed | middleware/Authorization.js:10 | a login token makes the user gate throw as written, and passes the corrected gate |

## Left out

- Routes, swagger comments, and the address, category and message controllers: wiring and pass-through CRUD.
- The read-only queries and their handlers (`getEvent`, `getAllEvent`, `getCreator`, `getAllEventByUser`, `getAllJoinedEvent`, `getAllPending`, `getAllInscription`, `getInscription`, `getAddress`, `getCategoryById`, `getAllUsers`, `getUserById`, `getUserByEmail`) and the response-shaping maps in the event controller. They change nothing. The one read a guarded write depends on, `getEvent` in `modifyEvent`, is modelled through `EventController.PlaceOf`.
- `grantUser`: no handler in the modelled core calls it.
- Concurrency: the model is sequential. The race between the capacity check and the insertion of two concurrent joins is the store's isolation level, not code.
- SQL beyond filtering, inserting, deleting and updating rows. `LAST_VALUE` in `insertAddress` is taken to report the key just drawn. The `count(*)` join in `isNotFull` is a count, with no type coercion.
- Text of the queries: the SET list is a list of fragments. An id written into the query text is modelled only as "a non-numeric id makes the statement fail". Injected SQL is not modelled.
- Schema of `users`: it is not part of this model. The model takes `email` as a nullable text column under a unique constraint, so repeated NULL e-mails are allowed. Other text columns keep the parameter's value as sent rather than its text, which matters only when they are read back.
- Column input: integer columns read a sign and digits with no surrounding blanks, and the 32-bit range of `integer` is not checked. A null in an integer column is refused, as under a NOT NULL constraint. Foreign-key constraints and cascades the schema might declare are not modelled.
- ModifyUser (`UserDB.ModifyUser`): `birthDate` is a date column, and the model lets it take any value, where Postgres refuses text that is not a date.
- PatchEvents (`EventDB.PatchEvents`): `eventDate` takes any value here, where Postgres refuses text that is not a date.
- InsertEvent (`EventDB.InsertEvent`): the event date is stored as `toDate(date)`, a parameter, so its syntax is not checked.
- VerifyEvent (`EventDB.VerifyEvent`): the boolean words are the lower-case spellings `true`, `t`, `yes`, `y`, `on`, `1` and their negations. Other letter cases, unique prefixes such as `tr`, and surrounding blanks, which Postgres also reads, are not modelled.
- InsertEvent (`EventController.InsertEvent`): a null creator fails at the NOT NULL check after the event row has drawn its own key. On every 500 the model advances the counter by the address's key only.
- Tables.Db: one counter, `nextId`, serves every table, where the schema has one sequence per table. In the model, keys are distinct across tables, and drawing a key in one table moves every other table's next key.
- `jwt.sign`, `jwt.verify`, `getHash`, `compareHash` and `new Date` are parameters. `AuthChain.Faithful` is the one property assumed of `sign` and `verify`: a token the service signed decodes to its payload and holds no space. Expiry after a day is not modelled.
- An exception escaping a middleware is the outcome `Authorization.Throws`. A handler's rejected promise goes through express-promise-router to Express's default error handler, which answers 500; `EventController.DeleteEventAsWritten` states that 500.
- The `.json(...)` chained after `sendStatus(418)` in `linkUserEvent`: once the reply is sent it throws, the catch block's ROLLBACK succeeds, and only the catch's second `sendStatus` throws. The client sees 418 and nothing was inserted, which is what `InscriptionController.LinkUserEvent` states. As written the path is never reached, because the missing `inscriptionExist` throws first.
- Connections: `pool.connect` and `client.release` are outside the model, so the connection `deleteEvent` never releases on its 400 and 404 replies and on the 500 of its missing `eventExist` (controleur/eventController.js:148-160) does not appear.
- RawId (`Http.RawId`): a path id is either an integer's decimal text or text that `isNaN` rejects. Text that `isNaN` accepts but that is not an integer (`1.5`, `1e3`, `Infinity`, ` 7`) is not modelled. `deleteEvent` lets such an id past its 400 check, and the query then fails with 500; the model cannot express that request, so DeleteEventAsWritten, DeleteEvent and EventDB.EventExist say nothing about it.
- LinkUserEvent (`InscriptionController.LinkUserEvent`): the body's event id and user id are integers or absent. A user id that is null or not an integer, which the source passes to its queries and answers with 404 when they fail, is not modelled; only an absent one falls back to the session's user.
- AddUser (`UserDB.AddUser`, `UserController.AddUser`): the birth date is stored as `toDate(birthDate)`, a total parameter. A missing or malformed birth date gives an Invalid Date that Postgres refuses, so the source answers 500 where the model answers 201.
- Connections in `modifyUser`: `pool.connect()` is not awaited (controleur/userController.js:89), so the pooled connection it opens is never released, and `client.release()` in the `finally` block throws on the promise after the 500 has been sent. Neither appears in the model, which states only the 500.
- Routing: no route mounts `mustBeUser`, and PATCH `/inscription/:id` has no identification middleware. `Authorization.MustBeUser` is therefore a gate no route uses, and the registration update is modelled without a session.
- InscriptionDB.IsNotFull: its verdict is stated only under the event table's primary key (`UniqueEventIds`). With duplicate event ids the joined count is multiplied, and the model computes but does not characterise that case.
- InscriptionController.LinkUserEvent: the "201 iff room, user and new pair" statement holds under the event table's primary key, for the same reason.
- EventController.ModifyEvent: its 204 effect is stated through `EventController.Commit`, whose contract gives the row-by-row changes.
- EventDB.GetEventOwner: with duplicate event ids it only says the owner is the creator of some row with that id.

## Findings

| source | as written | input that shows it | evidently intended | confidence | as-written member | corrected member |
|---|---|---|---|---|---|---|
| controleur/inscriptionController.js:35 | calls `inscriptionExist`, which `modele/inscriptionDB.js` does not export | any join of an existing event with room: the TypeError leads to ROLLBACK and 404 | call `inscriptionExistByEventUser` | high, not executed | InscriptionController.LinkUserEventAsWritten | InscriptionController.LinkUserEvent |
| modele/userDB.js:73 | `result.isadmin` reads the array of rows, always undefined | an administrator logs in: the token says "user" and `mustBeAdmin` answers 403 | `result[0].isadmin` | high, not executed | AuthChain.AdminLockedOut | AuthChain.AdminAdmitted |
| modele/eventDB.js:77-79 | the UPDATE has no WHERE clause | once `eventExist` is defined, an administrator sets `nbMaxPlayer` of one event: every event gets it | `WHERE eventId = ...` | high, not executed | EventController.ModifyEventClobbers | EventController.ModifyEvent |
| controleur/eventController.js:640 | passes `eventId` in the `gameCategoryId` position, so the category goes to `eventDate` and the date to `place`; the description and the capacity keep their places | once `eventExist` is defined, the same request: every event's category becomes the event id | pass the category, date, description and capacity in order, with the id in the WHERE clause | high, not executed | EventController.ChangesAsWritten | EventController.Changes |
| controleur/eventController.js:599 | the requester is `req.session.id`, which the session does not have | once `eventExist` is defined, the creator of an event (not an administrator) modifies it: 403 | `req.session.userid` | high, not executed | EventController.ModifyEventGivenEventExist | EventController.ModifyEvent |
| controleur/eventController.js:638-642 | `const {rows: result}` destructures the rows array `getEvent` already returns, so `result` is undefined and `result[0]` throws; `addressid` is not a column `getEvent` selects either | once `eventExist` is defined, an administrator changes an event's street: 500 | bind the array itself and pass the event's `place` | medium, not executed | EventController.ModifyEventGivenEventExist | EventController.Commit |
| modele/eventDB.js:83 | writes the column `isVerify`, which the table does not have | once `eventExist` is defined, an administrator verifies an existing event: 500 | `isVerified` | high, not executed | EventController.CheckEventGivenEventExist | EventController.CheckEvent |
| middleware/Authorization.js:10 | reads `res.session` and tests for "client" | any logged-in user on a user route: the gate throws | `req.session`, with "user" | high, not executed | AuthChain.UserGateClosed | Authorization.MustBeUser |
| controleur/userController.js:83 | compares the path id with `req.session.id`, which the session does not have | a user modifies their own account: 403 | `Number(idToUpdate) === req.session.userid`, comparing the path text as a number | high, not executed | UserController.ModifyUserAsWritten | UserController.OwnPasswordChange |
| controleur/userController.js:89 | `pool.connect()` is not awaited, so the model call gets a promise | an administrator modifies an account: 500, nothing written | `await pool.connect()` | high, not executed | UserController.ModifyUserAsWritten | UserController.ModifyUser |
| modele/inscriptionDB.js:21-38 | moving a registration never re-checks the target event's capacity | two one-seat events, each full; move the second registration to the first event: 204 and two registrations for one seat | the join's capacity and duplicate checks | medium, not executed | InscriptionController.UpdateOverfills | InscriptionController.GuardedUpdatePreservesInv |
| controleur/eventController.js:154 | calls `eventExist`, which `modele/eventDB.js` does not export, outside the `try` | the creator deletes their event: the rejected promise reaches Express's error handler, 500, and nothing is deleted | define `eventExist` as a count of the event's rows | high, not executed | EventController.DeleteEventThrows | EventController.DeleteEvent |
| controleur/eventController.js:165 | calls `deleteMessageWithEvent`, which `modele/messageDB.js` does not export, after BEGIN | once `eventExist` is defined, the creator deletes their event: rollback and 500 | delete the event's messages | high, not executed | EventController.CascadeThrows | EventController.DeleteEvent |
| controleur/eventController.js:631 | calls the undefined `eventExist` inside the `try` | the creator changes their event's capacity: 500 | define `eventExist` | high, not executed | EventController.ModifyEventThrows | EventController.ModifyEvent |
| controleur/eventController.js:706 | calls the undefined `eventExist` inside the `try` | an administrator leaves a message on an existing event: 500, and 500 for an unknown event too | define `eventExist` | high, not executed | EventController.CheckEventThrows | EventController.CheckEvent |
| controleur/userController.js:64 | calls `deleteUsersEvent`, which `modele/eventDB.js` does not export, after BEGIN | the deletion of any existing user: rollback and 404 | delete the user's events with their addresses, messages and registrations | high, not executed | UserController.DeleteUserThrows | UserController.DeleteUser |
| controleur/userController.js:37-39 | the comment expects the transaction to avoid skipping an id, but a rollback does not return a sequence's value | a sign-up with a taken e-mail, then one with a new e-mail: the new account's key skips the one the failure drew | look the e-mail up before inserting | medium, not executed | UserController.FailedSignUpSkipsKey | UserController.CheckedSignUpKeepsKeys |
| controleur/eventController.js:105-107 | `!nbmaxplayer` refuses only a falsy capacity | a capacity of -1: 201, and an event with no registration already holds more than it admits | refuse every capacity below one | medium, not executed | EventController.NegativeCapacityAdmitted | EventController.InsertEventGuardedPreservesInv |
| controleur/eventController.js:634-646 | writes a new capacity without counting the event's registrations | the creator of an event holding one registration sets its capacity to 0: 204, and the event is over capacity | refuse a capacity below the registrations held (409 in the corrected member) | medium, not executed | EventController.ModifyEventOverfills | EventController.ModifyEventGuardedPreservesInv |
