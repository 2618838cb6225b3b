# Courier backend: user and item management, modelled in Dafny

The system is the backend of a small parcel courier. Customers register,
log in and receive a session token. They top up or transfer balance, and
they send parcels to other customers. Sending charges the cost to the
`ADMINISTRATOR` account and records a pending item. The recipient later
marks the item received, once it is due. Items can be queried by id, date,
sender and recipient.

The model is a functional state machine. A `UserManage.Service` holds:

- `registry`: an `ItemManage.Registry`, which is the store (`Records.Db`)
  plus the item-id counter `total`;
- `userMap`: the map from username to the cached session object.

Every handler of `UserManage` is a pure function. It takes a service and a
request and returns the new service and the reply text. The empty reply
means success, as in the source.

Modules:

- `Records`: the rows (`UserRow`, `Item`, `Time`), the whole store `Db`,
  the role and state codes, and the store invariants (`UniqueIds`,
  `Registered`).
- `Database`: the row-level primitives. The user table is a map keyed by
  username. The item table is a sequence in insertion order, which is the
  order a plain SQL scan returns rows in. The primitives that write, and
  the item queries, take `executes`, which says whether the statement
  ran, so their failure return values are part of the model. The user
  lookups (`QueryUserByName`, `QueryUserRow`, `QueryBalanceByName`) and
  `Open` take their statements to run; "## Left out" says what that
  loses.
- `ItemManage`: the id counter and the item queries. Above the store,
  statements are taken to run.
- `NumberText`: the decimal text of an integer, which `sendItem` replies
  with, and its parser.
- `UserManage`: tokens, sessions and the request handlers.
- `Lifecycle`: properties that relate several operations.

Behaviour of the code that the model keeps as written:

- `verify` fails by returning the empty name. `queryItem` does not check
  that result, so an unverified caller in mode 1 or 2 loses the forced
  sender or recipient criterion (`Lifecycle.UnverifiedSentQuerySeesEveryone`).
  In mode 0 the source dereferences the caller's session unchecked; that
  is a precondition of `UserManage.QueryItem`.
- The id -1 means "no id criterion". So `queryById(-1)` yields the first
  row of the table, and a receive of item -1 can report success while
  changing nothing (`Lifecycle.ReceiveOfSentinelIdChangesNothing`).
- A date criterion is active when its day or month is set. The test
  names the day twice and the year never (src/database.cpp:336 and 343),
  so a year alone is ignored (`Database.YearAloneIsIgnored`).
- `modifyItemReceivingTime` always returns false, because its third flag
  is never set. `deleteItem` returns false when the DELETE runs and true
  when it fails, the reverse of what include/database.h documents.
- `login` reuses an existing session without refreshing it.
  `changePassword` updates only the stored row. A role outside
  {CUSTOMER, ADMINISTRATOR} can be registered, but that account can never
  log in (`Lifecycle.UnknownRoleNeverLogsIn`).
- `receiveItem` never reads the item's state, so receiving is repeatable
  (`Lifecycle.ReceiveIsRepeatable`). A design in which RECEIVED is
  terminal is not what the code does.

Where the code is inconsistent with itself, the model makes these choices:

- The definition of `ItemManage::insertItem` takes `(cost, state, type,
  ...)` (src/item.cpp:21-23). The call in `sendItem` (src/user.cpp:301)
  therefore passes the category as `state` and PENDING_REVEICING as
  `type`. The declaration (include/item.h:161-168) and
  `Database::insertItem` (include/database.h:134, src/database.cpp:293)
  have no `type`, and the item table has no category column. Storing the
  new item with state PENDING_RECEIVING is this model's choice, following
  the declarations; the category only selects the price.
- `transferBalance` bounds the destination's new balance by adding the
  amount to the destination's *name* (src/user.cpp:62 and 65). The model
  adds it to the destination's stored balance, which is what line 72
  writes.
- The header declares `addItem`, but the source defines `sendItem`; the
  model follows the definition.

## Model

| member | source | states |
|---|---|---|
| Records.AppendFreshKeepsUnique | src/database.cpp:293-317 | appending a row whose id is unused keeps the item ids unique, and the new id is then stored |
| Database.Open | src/database.cpp:92-102 | the username set is exactly the file's lines, plus ADMINISTRATOR when its row is inserted; the administrator row is inserted when the file does not name ADMINISTRATOR, and an already stored ADMINISTRATOR makes that INSERT fail so the user table is unchanged; the users stay registered in the set |
| Database.InsertUser | src/database.cpp:153-174 | a new username gets exactly the given row and joins the username set; a taken key or a failing statement changes nothing |
| Database.QueryUserByName | src/database.cpp:176-202 | reports a user as found exactly when the user table has that key; a stored name missing from the username set is excluded, as the source aborts on it |
| Database.QueryUserRow | src/database.cpp:204-236 | returns the stored row exactly when the key exists |
| Database.QueryBalanceByName | src/database.cpp:238-261 | the balance of the stored row with that name, the one the row lookup returns; a missing row is excluded by the precondition because the source aborts on it (qFatal at line 257) |
| Database.ModifyUser | src/database.cpp:105-151 | reports exactly whether the UPDATE ran; only the keyed row changes, and only in that column |
| Database.ModifyUserPassword | src/database.cpp:263-266 | the keyed row gets the new password; no other row, key or item changes |
| Database.ModifyUserBalance | src/database.cpp:268-271 | the keyed row gets the new absolute balance; no other row, key or item changes |
| Database.GetDBMaxId | src/database.cpp:273-291 | 0 for an empty table or a failing statement; otherwise an id that is stored and is at least every stored id |
| Database.MaxId | src/database.cpp:276 | the MAX(id) aggregate: a stored id no smaller than any stored id |
| Database.InsertItem | src/database.cpp:293-317 | a row with a fresh id is appended after the existing ones; a used id (primary-key violation) or a failing statement leaves the table; ids stay unique |
| Database.Select | src/database.cpp:326-398 | the scan returns rows of the table that meet every active criterion, and every such row; each matching row occurs as often as in the table and no other row occurs, so the result is the table's matching rows counted with multiplicity |
| Database.QueryItemByFilter | src/database.cpp:326-398 | keeps the caller's list as a prefix, appends exactly the matching rows, each as often as the table holds it, and returns their count, which is therefore the number of matching rows; a failing statement appends nothing and returns 0 |
| Database.SelectNoFilter | src/database.cpp:329-359 | with every criterion at its sentinel the scan returns the whole table in order |
| Database.SelectSameMatches | src/database.cpp:326-398 | two filters that accept the same rows yield the same result |
| Database.YearAloneIsIgnored | src/database.cpp:336-342 | a sending-date criterion naming only the year selects what no date criterion selects |
| Database.SelectById | src/database.cpp:331-335 | with unique ids a query by a real id returns one row when the id is stored and none otherwise |
| Database.ModifyItem | src/database.cpp:105-127 | reports exactly whether the UPDATE ran; only rows with the id change, and only in that column; order and length are kept |
| Database.ModifyItemState | src/database.cpp:400-403 | rows with the id get the new state; every other row is unchanged |
| Database.ModifyItemReceivingTime | src/database.cpp:405-412 | always reports false; when the statements run, rows with the id get the new receiving date and every other row is unchanged |
| Database.RemoveRows | src/database.cpp:414-430 | keeps exactly the rows whose id differs; unique ids stay unique |
| Database.DeleteItem | src/database.cpp:414-430 | returns the negation of "the statement ran"; when it runs no row with the id remains and every other row does; otherwise nothing changes |
| ItemManage.Create | src/item.cpp:15-18 | the counter starts at a stored id that covers every stored id, or at 0 for an empty table |
| ItemManage.InsertItem | src/item.cpp:20-33 | the returned id is the counter plus one and unused; the row is appended under it; the counter covers all ids and ids stay unique |
| ItemManage.QueryAll | src/item.cpp:35-39 | appends the whole table, in order, and returns its size |
| ItemManage.QueryByFilter | src/item.cpp:41-45 | keeps the caller's list as a prefix, and what follows it is exactly the stored rows meeting the criteria, each as often as the table holds it, so the count returned is the number of matching rows |
| ItemManage.QueryById | src/item.cpp:47-57 | for a real id, finds a row exactly when the id is stored, and with unique ids it is that row; for -1, finds the first row of a non-empty table |
| ItemManage.ModifyState | src/item.cpp:59-62 | the store's state update; the counter and its coverage and unique ids are kept |
| ItemManage.ModifyReceivingTime | src/item.cpp:64-67 | the store's receiving-date update; the counter and its coverage and unique ids are kept |
| ItemManage.DeleteItem | src/item.cpp:69-73 | the store's delete; the counter is kept, so a deleted id is never handed out again |
| NumberText.Number | src/user.cpp:303 | the reply text is non-empty and starts with a minus sign exactly for a negative cost |
| NumberText.ParseDigitsOfDigits | src/user.cpp:303 | the decimal digits of a natural number read back as that number |
| NumberText.NumberRoundTrip | src/user.cpp:303 | the reply text of a send determines the cost charged |
| UserManage.User.GetUserType | include/user.h:136-172 | CUSTOMER exactly for a customer object and ADMINISTRATOR exactly for an administrator object |
| UserManage.User.AddBalance | include/user.h:104 | the cached balance grows by the addend and nothing else in the object changes |
| UserManage.SessionFor | src/user.cpp:171-180 | the session object copies the stored row and has the class of the stored role |
| UserManage.Start | include/user.h:187 | no session at start-up; the store holds the given items; consistent tables give a service that meets the invariant |
| UserManage.Verify | src/user.cpp:15-30 | a token authenticates its username exactly when that user has a session and the issuer is "Haolin Yang"; otherwise the empty name |
| UserManage.AddBalance | src/user.cpp:32-51 | the limit and verification errors; success exactly for a bounded change of a live session keeping the cached balance in range; on success the cache and the stored row both hold cached plus addend and nothing else changes; on failure nothing changes |
| UserManage.TransferBalance | src/user.cpp:53-75 | the limit and missing-user errors; success exactly when the destination stays in range and the debit succeeds; on success the sender is debited, the destination credited, no other row or session changes, and between two distinct users with an up-to-date cache the sum of balances is conserved |
| UserManage.RequestFilter | src/user.cpp:89-109 | a present key's value becomes its criterion, part by part for the dates; an absent key becomes the "no constraint" sentinel (-1 or "") |
| UserManage.QueryItem | src/user.cpp:77-125 | the missing and invalid mode errors; success exactly for modes 0 to 2, mode 0 only for an administrator; the result is exactly the stored rows meeting the criteria, each as often as the table holds it, with the sender forced to the caller in mode 1 and the recipient in mode 2 |
| UserManage.RegisterUser | src/user.cpp:148-159 | the length error; success exactly for a 1 to 10 character unused name and a role other than ADMINISTRATOR; on success exactly one new row with balance 0 and the name joins the set; on failure nothing changes |
| UserManage.Login | src/user.cpp:161-191 | success exactly for a stored row with that password and a known role; the role and credential errors; on success the token carries issuer and username and verifies to the user, and a session is created only when none exists |
| UserManage.Logout | src/user.cpp:193-201 | success exactly for a verified token; the session is removed and the token no longer verifies |
| UserManage.ChangePassword | src/user.cpp:203-211 | success exactly for a verified token; only the caller's stored password changes and the sessions are untouched |
| UserManage.Cost | src/user.cpp:280-294 | a cost exists exactly for a known category, and it is the amount times that category's unit price, the cases tried in the order fragile, book, normal |
| UserManage.SendItem | src/user.cpp:256-305 | a failed check changes nothing and replies with an error; a success replies with the cost as text, moves the cost from the caller to ADMINISTRATOR, advances the counter by one and appends exactly one pending item sent today from the caller to the recipient |
| UserManage.ReceiveItem | src/user.cpp:307-329 | success exactly for a customer receiving a due item addressed to them; with a real id, exactly when such a stored row exists; on success the rows with that id become RECEIVED today and nothing else changes |
| Lifecycle.RegisterThenLogin | src/user.cpp:148-191 | a registered customer logs in with that password, into a CUSTOMER session with balance 0 whose token verifies |
| Lifecycle.UnknownRoleNeverLogsIn | src/user.cpp:154-183 | an account registered with a role outside CUSTOMER and ADMINISTRATOR can be created but never logs in |
| Lifecycle.LoginThenLogout | src/user.cpp:161-201 | the token a login returns logs out successfully and is revoked by it |
| Lifecycle.ChangePasswordThenLogin | src/user.cpp:161-211 | after a password change the new password logs in and a different old one fails |
| Lifecycle.AddBalanceUndo | src/user.cpp:32-51 | adding an amount and then its negation restores the whole state |
| Lifecycle.InsertThenQueryById | src/item.cpp:20-57 | the id insertItem returns retrieves exactly the stored row |
| Lifecycle.SuccessiveIdsAreFresh | src/item.cpp:20-33 | two inserts hand out increasing, unused ids, grow the table by two and keep ids unique |
| Lifecycle.DeleteThenQueryById | src/item.cpp:47-73 | after a delete by a real id that id is no longer found |
| Lifecycle.SelectCorresponds | src/database.cpp:326-398 | two tables whose rows agree one by one on the criteria yield first results at the same position |
| Lifecycle.ReceiveIsRepeatable | src/user.cpp:307-329 | a receive that succeeded succeeds again with the same request |
| Lifecycle.ReceiveOfSentinelIdChangesNothing | src/user.cpp:315-327 | when no row has id -1, a successful receive of item -1 changes nothing and concerns the first row of the table |
| Lifecycle.UnverifiedSentQuerySeesEveryone | src/user.cpp:84-117 | a mode-1 query with a failed verification succeeds and returns every row meeting the other criteria, whoever sent it |
| Lifecycle.FirstIdIsOne | src/item.cpp:15-33 | the first item inserted after starting on an empty table gets id 1 |

## Left out

- SQL text building, placeholder binding and logging are not modelled. The
  rows a statement affects are modelled directly.
- The placeholder names `:sendingTime_day` and `:receivingTime_day`
  (src/database.cpp:368 and 374) do not match the `_Day` names in the
  query text. What an unbound placeholder does depends on the Qt SQLite
  driver, which is not part of this model. The model compares the day like
  the year and the month, as the query text intends.
- Schema creation, the connection and the username file's I/O are left
  out. `Database.Open` takes the tables and the file's lines as values.
- The clock (`Time::getCur*`, `Time::isDue`) is left out. The date is a
  parameter `today`, and due-ness is a parameter `isDue`.
- The category codes and unit prices are constants outside these files.
  They are the parameter `UserManage.Tariff`.
- JSON (de)serialisation is not modelled. Requests are datatypes whose
  absent keys are `None`, and replies are the items themselves. Values of
  the wrong JSON type are not modelled.
- The error texts are English renderings of the source's Chinese
  messages. The model states which error arises, not its wording.
- `getUserInfo` and `queryAllUserInfo` are left out. `getUserInfo`
  (src/user.cpp:215-226) never reads the store: after `Verify` it reports
  the fields of the caller's cached session object, balance included.
  That cached balance can differ from the stored row, because
  `transferBalance` credits only the stored row (src/user.cpp:72) and
  `login` reuses a stale session (src/user.cpp:174-179); the model keeps
  both copies in `UserManage.Service`, but no member states what
  `getUserInfo` would report. `queryAllUserInfo` refuses a caller whose
  session is not an administrator (src/user.cpp:233-234) and then lists
  every stored row; that check and that listing are not modelled.
- UserManage.SendItem: the product amount × price is not wrapped to 32
  bits, so an overflowing cost is not modelled. The amount is not
  validated: a negative amount gives a negative cost, and the contract
  covers that case, crediting the caller and debiting ADMINISTRATOR.
- UserManage.TransferBalance: the destination bounds use the stored
  balance rather than the name-plus-amount expression of src/user.cpp:62
  and 65, which does not denote a balance. Because that reading is the
  model's, the balance-range invariant (`UserManage.BalancesInRange`) is
  not claimed for `TransferBalance` or `SendItem`; it is proved for every
  other handler.
- Database.QueryUserByName: a failing SELECT is not modelled here or in
  `QueryBalanceByName`. A row that exists but is missing from the username
  set aborts the program, so it is excluded by a precondition.
- Database.QueryUserRow: the SELECT is taken to run. When it fails the
  source returns false (src/database.cpp:211-215) exactly as for a missing
  row, so `login` would refuse a stored user; the model does not claim
  that case.
- Database.Open: the INSERT of the administrator row, made when the file
  does not name ADMINISTRATOR (src/database.cpp:101-102), is taken to run;
  it fails only on an already stored ADMINISTRATOR, and a failure for any
  other reason is not modelled.
- ItemManage.Create, ItemManage.InsertItem: the statements below
  `ItemManage` are taken to run. What is lost: a failing `SELECT MAX(id)`
  (src/item.cpp:17, src/database.cpp:279-282) leaves the counter at 0 on
  a non-empty table; later ids then collide with stored ones, the INSERT
  fails on the primary key (src/database.cpp:313), and `sendItem` still
  charges the caller and replies with the cost. `ItemManage.CounterCovers`
  holds only because that SELECT is taken to succeed.
- UserManage.AddBalance, UserManage.TransferBalance,
  UserManage.RegisterUser, UserManage.ChangePassword,
  UserManage.SendItem, UserManage.ReceiveItem: each passes `executes =
  true` to the store, so every write is taken to succeed. The source
  ignores the results of these writes (src/user.cpp:48-50, 72, 156-158,
  209, 301, 326-327) and replies success after a failed statement. What is
  lost: a failed UPDATE in `addBalance` still moves the cached balance, so
  the session and the stored row disagree; a failed INSERT in
  `registerUser` still replies success with no row stored; and a failed
  write in the others reports success without the change. The success
  contracts of these handlers hold only when the store's writes succeed.
- String length is the number of characters of the sequence, not UTF-16
  code units.
- Concurrency is not modelled. Every handler runs to completion on one
  state.
