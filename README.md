# Tiny second-hand shop backend, modelled in Dafny

This is a model of the HTTP and Socket.IO handlers in `app.py` of a small
second-hand marketplace. Accounts register and log in with a signed session
token. Sellers list, reprice and delete items. Any account can report a user
or an item, and three reports make the system suspend the user or delete the
item. Accounts move points to each other. Two accounts chat in a room named
after their pair.

The SQLite tables become an in-memory store, the class `App.Shop`:

- `users` and `items` are maps from row id to row;
- `reports` and `messages` are append-only sequences;
- the AUTOINCREMENT counters are two integer fields;
- `events` records everything the chat channel emits: the `status` event of
  a join and the `message` event of a sent message.

Each route handler is one method of `Shop`. It returns the HTTP status and
changes only the fields its `modifies` clause names. Each handler keeps the
store invariant `Shop.Valid()`:

- every id lies below its counter;
- emails are unique;
- no balance is negative;
- the `message` events emitted so far are, in order, exactly the
  announcements of the persisted messages.

What the handlers compute is stated by pure functions, with lemmas about them:

| module | file | contents |
|---|---|---|
| `Schema` | `schema.dfy` | rows, statuses, Python truthiness of optional JSON fields |
| `Text` | `text.dfy` | Python's `str.strip`, `str.split(sep)` and `str(int)` |
| `Session` | `session.dfy` | the token claim and its two-hour lifetime, `Bearer` header parsing, `verify_token`, the check order of `login`, the admin and owner gates |
| `Ledger` | `ledger.dfy` | a transfer as two UPDATEs, the total of all points, runs of transfer requests |
| `Moderation` | `moderation.dfy` | report admission, counting reports against a target, the suspend and delete branches, runs of reports |
| `Chat` | `chat.dfy` | the room name of a pair, and the link between the message history and the broadcasts |
| `App` | `app.dfy` | the store class and its handlers |
| `Scenarios` | `scenarios.dfy` | a client run: two accounts register, one reports the other four times, and the reported account can no longer log in |

The libraries the handlers call are parameters of the model:

- The bcrypt hash of a password is passed to `Register` as `hashed`.
- bcrypt's password check is passed to `Login` as `checkPassword`.
- JWT decoding with its signature check is passed to `Session.VerifyToken`
  as a partial function `decode` from token text to claim.
- The clock is passed as an integer `now`, in seconds.
- Each handler takes the claim that `verify_token` produced for the
  request, or `None` when there is none.
- A JSON field that is missing is `None`.

The model follows the code as written, including these behaviours:

- `create_item` rejects only a zero or missing price. A negative price is
  stored.
- `report` refuses a report only when neither target is a non-zero id, or
  when the stripped reason is empty. A target of `0` counts as not given.
  When both targets are given, it stores one report and runs both the suspend branch and the
  delete branch (`Moderation.File`).
- `report` does not check that the target exists. A report against a
  missing user or item is stored and has no other effect.
- A transfer to oneself passes the same checks as any other, and when they
  pass it leaves the balance as it was
  (`Ledger.Transfer`).
- `/admin/users` and `/admin/suspend` answer 403 to a request with no token
  at all, not 401.
- Some inputs raise an exception, which Flask turns into 500
  (`Status.ServerError`):
  - `login` with a known email of an account that is not suspended, and no
    password, raises inside the password check;
  - `update_item` with no price writes NULL into a NOT NULL column, which
    raises.
- Suspension does not revoke tokens. `VerifyToken` never looks at the
  users table, so a token issued before the suspension stays valid until it
  expires.

Several meanings are stated as separate lemmas rather than as the `ensures`
of the function they describe: `Moderation.AdmissibleMeans` for
`Admissible`, `Text.StripShape` for `Strip`, `Text.SplitLeading` for
`Split`, and `Chat.AnnouncementsLength` and `Chat.DeliveriesAreBroadcasts`
for the event lists. The handlers' proofs then carry none of those
quantifiers.

## Model

| member | source | states |
|---|---|---|
| Text.Strip | app.py:214 | the stripped reason is no longer than the input, and it is empty exactly when every character of the input is Python whitespace |
| Text.StripShape | app.py:214 | what strip keeps is the contiguous piece of the input after a run of leading whitespace and before a run of trailing whitespace, and it neither starts nor ends with whitespace |
| Text.Split | app.py:46 | split on a separator yields at least one field; no field holds the separator; joining the fields gives back the input |
| Text.SplitLeading | app.py:46 | the first field of a split is the text up to the first separator, or all of it when there is none |
| Text.SplitFree | app.py:46 | text without the separator splits into itself alone |
| Text.SplitJoin | app.py:46 | splitting the join of separator-free fields gives back exactly those fields |
| Text.SplitAfterSeparator | app.py:44-46 | a separator-free head followed by the separator splits into that head and the split of the rest |
| Text.NatToDec | app.py:280 | the decimal numeral of a natural is a non-empty string of digits, one digit exactly below 10 |
| Text.NatToDecValue | app.py:280 | the numeral of `n`, read back digit by digit, denotes `n` |
| Text.NatToDecNoLeadingZero | app.py:280 | the numeral starts with `0` exactly for zero, whose numeral is `0` alone |
| Text.NatToDecInjective | app.py:280 | distinct naturals have distinct numerals |
| Text.IntToDec | app.py:280 | `str(int)` is non-empty and made of digits and the minus sign |
| Text.IntToDecInjective | app.py:280 | distinct integers have distinct numerals |
| Text.IntToDecValue | app.py:280 | `str(i)` starts with `-` exactly when `i` is negative, the rest is the numeral of its absolute value (the whole is the numeral of `i` when it is not negative), and the whole reads back as `i` |
| Session.IssueClaim | app.py:34-40 | the signed claim carries the user's id and admin flag, and expires exactly 7200 seconds after the time it is issued |
| Session.BearerToken | app.py:43-46 | a token is found exactly when the header is present and starts with `Bearer `; the token is the field after the scheme, up to the next space |
| Session.VerifyToken | app.py:42-50 | a claim comes back exactly when the header yields a bearer token, `decode` accepts that token and `now` is before the claim's `exp`; the claim returned is the decoded one |
| Session.TokenLifetimeWindow | app.py:34-50 | a token issued at time t and sent as `Bearer <token>` verifies, with the claim it was issued with, exactly at the instants before t + 7200 seconds, and is rejected from then on |
| Session.LoginCheck | app.py:84-91 | login of a found user succeeds exactly when the account is not suspended and the password is present and matches; suspended gives 403 whatever the password; a missing password gives 500; a wrong password gives 401; the failures are 403, 500 or 401 only |
| Ledger.Credit | app.py:252-253 | one `points = points + delta` UPDATE on an existing row: that row's points go up by `delta`, its other columns stay, and every other row stays as it was |
| Ledger.TotalCredit | app.py:252-253 | one `points = points + delta` UPDATE on an existing row raises the total of all points by exactly `delta` |
| Ledger.Transfer | app.py:252-253 | the two UPDATEs keep the set of accounts; the sender loses exactly `amount` and the recipient gains exactly `amount`; a self-transfer changes nothing; no other account and no other column changes |
| Ledger.TransferConserves | app.py:252-253 | a transfer leaves the total of all points unchanged |
| Ledger.TransferKeepsNonNegative | app.py:245-253 | a transfer the sender's balance covers leaves every balance non-negative |
| Ledger.Answer | app.py:241-251 | the answer of an authenticated transfer request is 200 exactly when the move passes the checks, and otherwise one of 400, 403 and 404 |
| Ledger.Step | app.py:241-254 | the balances after one request keep the set of accounts and the total of all points; an accepted request applies the two UPDATEs of `Transfer`, and a rejected one leaves the balances as they were |
| Ledger.AnswerCases | app.py:241-253 | the answer of a transfer request is 200 exactly when the move is acceptable; 400 exactly for a falsy recipient or a non-positive amount; 403 exactly when those pass and the sender is missing or short; 404 exactly when those pass and the recipient is missing; any answer but 200 leaves the balances alone |
| Ledger.ReplayPreserves | app.py:232-256 | any run of transfer requests, accepted or rejected, keeps the accounts, keeps the total of all points and keeps every balance non-negative |
| Moderation.CountAgainst | app.py:221-222 | the count of reports against a target is at most the number of reports, and it is zero exactly when no report names that target |
| Moderation.CountAppend | app.py:219-225 | inserting a report raises by one the count of exactly the targets it names, and leaves every other count alone |
| Moderation.AdmissibleMeans | app.py:214-216 | a report is admitted exactly when its reason has a non-whitespace character and one of its targets is a non-zero id |
| Moderation.Submit | app.py:214-230 | an inadmissible report is answered 400 and changes nothing; an admissible one is answered 200 and appended exactly once, with its reason stripped, and the users and items are those `File` leaves after the suspend and delete branches |
| Moderation.SuspendBranch | app.py:220-223 | no user is added or removed and only suspension flags change; a user is suspended afterwards exactly when it was before, or it is the non-zero user target and its count is at least 3 |
| Moderation.DeleteBranch | app.py:224-227 | items only disappear, unchanged otherwise; an item disappears exactly when it is the non-zero item target and its count is at least 3 |
| Moderation.File | app.py:219-227 | an admitted report is appended; no user is added or removed, and only suspension flags change; a user ends up suspended exactly when it was suspended before or it is the truthy user target and the count, new report included, is at least 3; items only disappear, and an item disappears exactly when it is the truthy item target and its count is at least 3 |
| Moderation.UserThreshold | app.py:219-223 | over any run of reports against one user, the user stays in the table and ends up suspended exactly when it already was, or the earlier and new reports together reach 3: the 1st and 2nd leave the flag, the 3rd sets it, later ones keep it |
| Moderation.ItemThreshold | app.py:224-227 | over any run of reports against one item, the item survives exactly when it existed and the earlier and new reports together stay below 3; reports against a missing item leave the items unchanged |
| Chat.RoomName | app.py:279-280 | the room name starts with `room_`; its fields and what they identify are stated by `RoomFields` and `RoomIdentifiesPair` |
| Chat.RoomFields | app.py:279-280 | the room name splits on `_` into `room`, the numeral of the smaller id and the numeral of the larger id |
| Chat.RoomIdentifiesPair | app.py:279-280 | two pairs get the same room exactly when they are the same pair in either order, so both participants compute the same room |
| Chat.AnnouncementsLength | app.py:274-277 | a message history has exactly one announcement per message |
| Chat.AnnouncementsAppend | app.py:266-277 | persisting one more message adds exactly its announcement at the end |
| Chat.DeliveriesAreBroadcasts | app.py:258-277 | the deliveries are `message` events only, and there are no more of them than events emitted |
| Chat.DeliveriesAppend | app.py:258-277 | emitting one more event adds it to the deliveries exactly when it is a `message` event |
| App.SubmitKeepsConsistent | app.py:205-230 | handling a report keeps the store invariant: unique emails, ids below their counters, non-negative balances, history matching broadcasts |
| App.Shop.constructor | init_db.py:9-60 | the empty database with both counters at 1 satisfies the store invariant |
| App.Shop.Register | app.py:56-72 | 400 exactly when the email or the password is missing or empty; 409 exactly when the email is taken; otherwise a row with the schema defaults under the next id, and the counter moves on; nothing changes on failure |
| App.Shop.Login | app.py:74-91 | 404 exactly when no user has the email; otherwise the status of `LoginCheck` on that user; a claim is returned exactly on success, and it is the two-hour claim of that user's id and admin flag |
| App.Shop.CreateItem | app.py:93-125 | 401 without a claim; 400 exactly when the title is empty or the price is missing or zero; otherwise the item is inserted, with the caller as seller, under the next id |
| App.Shop.UpdateItem | app.py:147-163 | 401 without a claim; 403 unless the item exists and the caller sells it; 500 when the price is missing; otherwise only that item's price changes |
| App.Shop.DeleteItem | app.py:165-179 | 401 without a claim; 403 unless the item exists and the caller sells it; otherwise exactly that item is removed |
| App.Shop.GetAllUsers | app.py:181-191 | admins only, otherwise 403 with an empty listing; the listing has one entry per user, showing email, admin flag and suspension flag |
| App.Shop.SuspendUser | app.py:193-203 | admins only, otherwise 403 and no change; an existing user gets its suspension flag set and nothing else changes; an unknown id is a success with no change |
| App.Shop.FileReport | app.py:205-230 | 401 without a claim and no change; otherwise the answer and the new users, items and reports are those of `Moderation.Submit` for the caller; the store invariant is kept |
| App.Shop.TransferPoints | app.py:232-256 | 401 without a claim and no change; otherwise the answer is `Ledger.Answer` and the balances are `Ledger.Step` of the request; the total of all points never changes, and the invariant (no negative balance among it) is kept |
| App.Shop.HandleJoin | app.py:258-264 | a join emits exactly one `status` event into the pair's room and keeps the invariant |
| App.Shop.HandleMessage | app.py:266-277 | the message is appended to the history and then exactly one `message` event goes to the pair's room, so broadcasts follow the history in send order |
| Scenarios.TwoAccounts | app.py:56-72 | two registrations on an empty store succeed, under ids 1 and 2, and both rows are the schema-default rows |
| Scenarios.ReportSpam | app.py:205-230 | one admissible report against user 2 raises the count against it by one, and suspends it exactly when that count reaches 3 |
| Scenarios.ReportedThrice | app.py:219-223 | after the 1st and 2nd report the account is still active, and the 3rd suspends it |
| Scenarios.SuspendedCannotLogIn | app.py:84-87 | after a 4th report the account is still suspended, and its login is answered 403 whatever the password |

## Left out

- Password hashing and checking, JWT encoding, signing and decoding, and
  the clock are parameters, not models (app.py:26-40, 48). The only part of
  the token decoding that is kept is the expiry rule: valid exactly while
  `now < exp`.
- `exp` is whole seconds. PyJWT's handling of fractional timestamps and
  its leeway option (off by default) are not modelled.
- Request parsing is not modelled, so the handlers receive typed values:
  - the content-type branches of `create_item`;
  - `html.escape`, which keeps a title empty or non-empty, so the check on
    the title is unaffected;
  - the image upload through `secure_filename` and `file.save`;
  - a form price arrives as text, so the string `"0"` would be truthy;
  - the `int()` conversions of `transfer_points`, which raise 500 on bad
    input.
- A JSON `null` where the source calls a string method is not modelled:
  `title` in `create_item` and `reason` in `report` would raise 500. The
  model treats a missing title as not present, and a missing reason as the
  empty string.
- Report targets are integers. JSON could send a string id, which SQLite
  would compare with its own type affinity rules.
- Chat ids are integers. `get_chat_room` on string ids would compare them
  as text.
- The SQL engine and connection handling are not modelled, and neither is
  the order of rows in the `/admin/users` answer. The listing is a map from
  id to summary.
- The timestamp columns (`created_at`, `timestamp`) and the `intro_text`
  column are not modelled.
- Socket.IO room membership (`join_room`) and the actual delivery of
  emitted events are not modelled. The model records each emitted event
  with its room.
- Concurrency is not modelled. Each handler is one atomic step, so the race
  between counting reports and acting on the count is out of scope, and so
  are concurrent transfers.
- Routes outside the core are not modelled: `index`, `get_items`,
  `get_item_detail` and `get_current_user`. `ui_app.py` is a presentation
  tier that forwards requests. `create_admin.py` is a seeding script.
  `init_db.py` is used only for the column defaults and the empty initial
  tables.
- Ids, prices, transfer amounts and points are unbounded integers. They are
  assumed to fit SQLite's 64-bit INTEGER: sqlite3 raises `OverflowError`
  when it binds a value outside -2^63 to 2^63-1, which Flask answers with
  500 and nothing committed. That error is not modelled, for example a
  price at app.py:122 and 160, a URL id at app.py:156, 172 and 200, a
  report target at app.py:219 and a transfer recipient at app.py:249.
