# User management service: a Dafny model

This project models the core of a small Go user-management backend. That core is:

- a users table keyed by email, with create, get, update and delete services;
- the email-verification token lifecycle: issue, validate within 5 minutes, mark verified;
- the save hook that recomputes the age from the date of birth and hashes the password on every save inside a POST request;
- the HTTP handlers' guard logic, which maps each request to a status code, and the Basic-Auth gate in front of three of them.

Files (all modules are given to Dafny together):

- `wrappers.dfy`: `Option` and `Result`, which stand for Go's error returns.
- `dates.dfy` (module `Dates`): the `"2006-01-02"` date layout, `YearDay`, the age computation as written, and the corrected age.
- `models.dfy` (module `Models`): the `User` record, the error kinds, the abstract password hasher, `HashPassword` and `BeforeSave`.
- `services.dfy` (module `Services`): the table as a value (`Table`), one pure function per service saying what it does to a table, lemmas about them, and the class `UserStore`. The class holds the table and its methods change it in place, each proved equal to its function.
- `controllers.dfy` (module `Controllers`): `UserResponse`, `BasicAuth`, `IsUserVerified`, the five handlers and the three routes that run a handler behind `BasicAuth`. The handlers are methods over a `UserStore` and return the status code they write.

Modelling choices:

- The table is the sequence of its rows in ascending primary-key order, plus the auto-increment counter.
  - The ORM's `Where(...).First(...)` is the first matching row, which is the lowest id.
  - `ValidTable` is the store's invariant: ids are positive, ascending and below the counter, and emails are unique. Email uniqueness is the unique index of models/user.go:16.
  - Inserting a row whose id or email is already present fails with `DuplicateEntry`. So does saving a record whose new email another row holds.
  - A create body may carry a non-zero `id` (the JSON field `id`). The store keeps that id and moves the counter past it, as MySQL does.
- The request context that the save hook inspects becomes the flag `isPost`: is the save running inside a POST request?
  - The create handler passes `true`, since its route only admits POST.
  - The update and verify handlers pass `false` (PUT and GET).
  - The service methods take the flag, as the Go services take the context.
- bcrypt is a parameter `hash: string -> Option<string>`. `None` means hashing failed. A password matches a stored hash when it hashes to it. `InjectiveHash` says distinct passwords never share a hash.
- Time is whole seconds (`now`). A token is expired when `now - issued > 300`, so a token exactly 5 minutes old is still accepted. Today's calendar date is a separate parameter (`today`).
- Behaviour of the code worth noting:
  - The password is hashed on every save made inside a POST request (models/user.go:30-38), not only when a record is first created.
  - GET /user's and PUT /user's 404 branches cannot be reached, because IsUserVerified has just found the record. `GetUser` proves `status != 404`.
  - After a valid token, VerifyEmail's "Invalid Email" 400 cannot be reached either.
  - DELETE /user deletes any verified record named in the body, not only the caller's own.
- The age stored by `BeforeSave` is the corrected `AgeOf`, not the as-written `CalculateAge`. See "## Findings".

## Model

| member | source | states |
|---|---|---|
| `Dates.ParseDate` | models/user.go:43-47 | a date is read only from exactly `YYYY-MM-DD` with a month in 1..12 and a day that exists in that month and year; anything it accepts is a valid calendar date with a four-digit year |
| `Dates.ParseFormatRoundTrip` | models/user.go:43 | every valid date with a four-digit year, formatted with the layout `2006-01-02`, parses back to itself |
| `Dates.FormatParseRoundTrip` | models/user.go:43 | the layout accepts only the canonical spelling: any string it parses formats back to exactly that string |
| `Dates.YearDay` | models/user.go:51 | the day of the year is between 1 and 365, or 366 in a leap year |
| `Dates.CalculateAge` | models/user.go:42-55 | as written: 0 when the date of birth does not parse; otherwise the year difference or one less |
| `Dates.CalculateAgeAgreesInLikeYears` | models/user.go:49-54 | when the birth year and the current year are both leap or both common, the as-written age is the number of completed years |
| `Dates.CalculateAgeMissesBirthdayAfterLeapYear` | models/user.go:51-53 | the as-written age is 0 for someone born 2000-03-01 on 2001-03-01, while the completed years are 1 |
| `Dates.CompletedYearsIsAge` | models/user.go:50-53 | the corrected age is the one n such that the n-th birthday has come and the (n+1)-th has not |
| `Dates.AgeOf` | models/user.go:42-55 | the age stored on save: 0 for an unparsable date of birth, otherwise the completed years (n-th birthday reached, (n+1)-th not) |
| `Models.OnlyOriginalPasswordMatches` | models/user.go:57-62 | with an injective hasher, a stored hash is matched by the password it was made from and by no other |
| `Models.HashPassword` | models/user.go:57-64 | hashing fails exactly when the hasher fails, and then the save is aborted with an error; otherwise only the password changes, and the old plaintext matches the new hash |
| `Models.BeforeSave` | models/user.go:27-40 | every save recomputes the age from the date of birth, as the corrected `AgeOf` (completed years), not line 28's as-written `CalculateAge`; the password is hashed only in a POST request, and a hashing failure aborts the save; no other field changes |
| `Models.BeforeSaveWithoutHashIdempotent` | models/user.go:27-28 | a save outside POST never fails, and saving the result again on the same day changes nothing |
| `Services.First` | services/user_services.go:16 | `Where(...).First(...)` finds nothing exactly when no row matches; otherwise it returns the first matching row |
| `Services.FirstByEmailIsUnique` | models/user.go:16 | with unique emails, the row found by email is the only row with that email |
| `Services.DeleteWhere` | services/user_services.go:57 | deleting by a where-clause keeps exactly the rows that do not match |
| `Services.DeleteWhereKeepsIdsAscending` | services/user_services.go:57 | deleting rows keeps the primary keys in ascending order |
| `Services.DeleteWhereKeepsEmailsUnique` | services/user_services.go:57 | deleting rows keeps the emails unique |
| `Services.DeleteWhereNoMatch` | services/user_services.go:57 | a delete that matches nothing leaves the table as it was |
| `Services.InsertById` | services/user_services.go:21 | an insert adds exactly the new row to the table |
| `Services.InsertByIdKeepsIdsAscending` | services/user_services.go:21 | inserting a row whose id is not taken keeps the primary keys ascending |
| `Services.InsertByIdKeepsEmailsUnique` | models/user.go:16 | inserting a row whose email is not taken keeps the emails unique |
| `Services.InsertStepKeepsValid` | services/user_services.go:21 | the store's insert (save hook, id assignment, unique checks) keeps the table valid |
| `Services.SaveStepKeepsValid` | services/user_services.go:49 | the store's save of a loaded record keeps the table valid |
| `Services.CreateRejectsExistingEmail` | services/user_services.go:14-18 | creating with an email already stored fails with "user already exists" and leaves the table unchanged |
| `Services.CreateAddsOneRecord` | services/user_services.go:13-25 | create succeeds exactly when the email is new, the save hook does not fail and any carried id is free; it keeps the table valid, and on failure changes nothing |
| `Services.CreatedRecordIsStored` | services/user_services.go:20-24 | a successful create adds exactly one row: the input record with a new positive id, the age recomputed and the password hashed when in POST. All other rows stay, and GetUserByEmail then returns the new row |
| `Services.CreateTwiceFails` | services/user_services.go:14-18 | after a successful create, a second create with the same email fails with "user already exists" and changes nothing |
| `Services.Lookup` | services/user_services.go:28-34 | GetUserByEmail succeeds exactly when a row has the email and returns a stored row with that email; otherwise "record not found" |
| `Services.LookupFindsStoredRecord` | services/user_services.go:28-34 | looking up any stored record's email returns that record |
| `Services.UpdateOverwritesFourFields` | services/user_services.go:37-53 | update succeeds unless hashing fails or another row holds the new email. On success it overwrites first name, last name, date of birth and email, recomputes the age, and keeps the id, token, token time, verified flag and (outside POST) password. Every other row and the counter are unchanged, and the table stays valid |
| `Services.UpdateRejectsMissingEmail` | services/user_services.go:38-41 | updating an email no row has fails with "record not found" and changes nothing |
| `Services.DeleteRemovesOnlyThatEmail` | services/user_services.go:56-61 | delete never reports an error and removes every row with the email and no other. When none matched, the table is unchanged |
| `Services.TokenOwnerOutcome` | services/user_services.go:63-76 | validation fails with "invalid token" exactly when no row holds the token. Any other failure is "token expired". On success it returns the email of a row holding the token, issued at most 5 minutes ago |
| `Services.TokenLifetimeBoundary` | services/user_services.go:70-74 | a token issued exactly 300 seconds ago is accepted and returns its owner's email; at 301 seconds it is expired |
| `Services.ExpiredTokenStaysExpired` | services/user_services.go:70-72 | once a token is expired it stays expired at every later time |
| `Services.VerifySetsFlag` | services/user_services.go:78-93 | verifying a stored email succeeds unless the save hook fails ("failed to update user verification status", table unchanged). On success it sets that row's verified flag and recomputes its age; outside POST nothing else changes, and no other row changes |
| `Services.VerifyRejectsMissingEmail` | services/user_services.go:81-83 | verifying an email no row has fails with "user not found" and changes nothing |
| `Services.VerifyIsIdempotent` | services/user_services.go:78-93 | verifying twice on the same day outside a POST request (the verify route is a GET): both calls succeed and the second changes nothing |
| `Services.SignUpThenVerify` | services/user_services.go:13-93 | a new user created with a fresh token can have that token validated within 5 minutes, which returns their email. Verifying that email then leaves the stored record verified |
| `Services.CreateKeepsLifecycle` | services/user_services.go:13-25 | create keeps the table valid, keeps every existing record as it was and unverifies none; it adds a verified record only if the input was already flagged |
| `Services.UpdateKeepsLifecycle` | services/user_services.go:37-53 | update keeps the table valid and never changes any record's verified flag |
| `Services.DeleteKeepsLifecycle` | services/user_services.go:56-61 | delete keeps the table valid and only removes records: every record left was in the table before, unchanged, and no verified flag changes |
| `Services.VerifyKeepsLifecycle` | services/user_services.go:78-93 | verify keeps the table valid and never clears a verified flag |
| `Services.LifecycleInvariants` | services/user_services.go:13-93 | every state-changing service keeps the table valid and never makes a verified record unverified. Only verify, or a create whose input is already flagged, makes a record verified |
| `Services.UserStore.Insert` | services/user_services.go:21 | the ORM's create: save hook, id assignment, unique checks and the sorted insert, proved equal to `InsertStep`. A failure changes nothing |
| `Services.UserStore.Save` | services/user_services.go:49 | the ORM's save of a loaded record, proved equal to `SaveStep`. A failure changes nothing |
| `Services.UserStore.CreateUser` | services/user_services.go:13-25 | checks existence, then inserts. It keeps the store valid, leaves the store unchanged when the email exists or on any failure, and is proved equal to `CreateStep` |
| `Services.UserStore.GetUserByEmail` | services/user_services.go:28-34 | returns the stored record with the email, or "record not found" when there is none, and changes nothing |
| `Services.UserStore.UpdateUser` | services/user_services.go:37-53 | loads the record, assigns the four fields one by one and saves. It keeps the store valid, changes nothing on failure, and is proved equal to `UpdateStep` |
| `Services.UserStore.DeleteUser` | services/user_services.go:56-61 | removes every row with the email, returns no error, and afterwards no row has the email |
| `Services.UserStore.ValidateToken` | services/user_services.go:63-76 | returns the token owner's email as `TokenOwner` states, "invalid token" exactly when no row holds the token, and changes nothing |
| `Services.UserStore.VerifyUserByEmail` | services/user_services.go:78-93 | loads the record, sets the flag and saves. It changes nothing when the email is absent or on failure, and is proved equal to `VerifyStep` |
| `Controllers.ResponseHidesSecrets` | controllers/user_controller.go:21-26 | a response depends only on id, first name, last name and email; password, token and the other fields never reach it |
| `Controllers.MergeIsPartialPatch` | controllers/user_controller.go:223-237 | each non-empty body field (first name, last name, date of birth, email) replaces the stored value and each empty one keeps it; so an all-empty patch changes nothing, applying a patch twice equals applying it once, and no other field changes |
| `Controllers.BasicAuth` | controllers/user_controller.go:31-58 | the wrapped handler runs exactly when credentials are present, a record has that email and the password matches its stored hash; otherwise 401 |
| `Controllers.IsUserVerified` | controllers/user_controller.go:131-142 | an error exactly when no record has the email; otherwise true exactly when that record is verified |
| `Controllers.CreateUser` | controllers/user_controller.go:88-129 | 400 without touching the store for an undecodable body or a missing name, email or date of birth, or a malformed email. Otherwise the record is created with a fresh token, verified = false and token time now. The answer is 500 if creation fails, 500 if the email is not sent (the record stays stored), and 201 otherwise, with the public fields of the created record |
| `Controllers.GetUser` | controllers/user_controller.go:145-183 | 400 for an undecodable body or an empty email, and 403 unless a verified record has the email. Otherwise 200 with that record's public fields. It never answers 404 and never changes the store |
| `Controllers.UpdateUser` | controllers/user_controller.go:186-253 | 400 for an undecodable body or an empty body email, and 403 unless the caller's record exists and is verified; the store is unchanged in both. Otherwise the caller's own record is patched and saved without rehashing: 500 (nothing changed) exactly when another record holds the new email, else 200 with the patched fields |
| `Controllers.DeleteUser` | controllers/user_controller.go:256-286 | 400 for an undecodable body or an empty email, and 403 unless a verified record has the email; nothing is deleted in either case. Otherwise that record is deleted and the answer is 200 |
| `Controllers.VerifyEmail` | controllers/user_controller.go:288-309 | 400 for an empty token, and 401 for a token no record holds or one older than 5 minutes; the store is unchanged in both. Otherwise the owner's record becomes verified and the answer is 200 |
| `Controllers.GetUserRoute` | routes/user_routes.go:13 | GET /user answers 401 unless authenticated. Once authenticated it is GetUser: 400 for an undecodable body or an empty email, 403 unless a verified record has the email, otherwise 200 with that verified record's public fields |
| `Controllers.UpdateUserRoute` | routes/user_routes.go:14 | PUT /user answers 401 unless authenticated. Once authenticated it is UpdateUser on behalf of the Basic-Auth email: 400 exactly for an undecodable body or an empty body email, 403 exactly when the caller is not verified, 500 exactly when in addition another record holds the new email, 200 exactly when none does; no other status. On 200 the table is `UpdateStep` of the caller's record patched by `Merge`, and no other record changes; on any other status nothing changes |
| `Controllers.DeleteUserRoute` | routes/user_routes.go:15 | DELETE /user answers 401 unless authenticated. Once authenticated it is DeleteUser: 400 for an undecodable body or an empty email, 403 unless a verified record has the email, otherwise 200 and the table is `DeleteStep` of that email, with no record left under it; on any status but 200 nothing changes |

## Left out

- database/database.go and main.go are not part of this model. They hold the connection string from environment variables, the MySQL connection, database creation, migration and router wiring.
- The VerifyEmail handler is modelled, but routes/user_routes.go registers no `/verify` route.
- The ORM and MySQL are replaced by the in-memory table. The model omits:
  - the `CreatedAt` and `UpdatedAt` timestamps;
  - the case-insensitive collation MySQL applies to `email` (the model compares emails exactly);
  - the `varchar(255)` length limit;
  - auto-increment values consumed by failed inserts;
  - database errors other than the two unique constraints.
- The check-then-insert race in CreateUser: the model is sequential, as every request is in isolation.
- bcrypt's salt and cost are not modelled. The hasher is a deterministic parameter. Matching means hashing to the stored value.
- `uuid.NewString` and `time.Now` become parameters.
  - The token is `token`, the clock `now` in whole seconds, and the calendar `today`.
  - Nothing ties `now` to `today`.
  - Go's nanosecond durations are rounded to seconds.
  - The time zones of `time.Parse` (UTC) and `time.Now` (local) are not modelled.
- The validator library's email syntax check is the parameter `isEmail`.
- JSON decoding is a parameter: the decoded body, or `None` when decoding fails. Response headers and the text of error messages are not modelled, only status codes and response bodies.
- Sending the verification email is the parameter `emailSent`. This covers the SendGrid call, the API key lookup, and the link and message text.
- Log and print output (`fmt.Println`, `log.Printf`) is not modelled.
- services/services_test.go's mock is not modelled. It cannot stand in for the database handle. Its two tests are stated as `Services.CreatedRecordIsStored` and `Services.LookupFindsStoredRecord`.

## Findings

| source | as written | input that shows it | evidently intended | confidence | as-written member | corrected member |
|---|---|---|---|---|---|---|
| models/user.go:51-53 | the birthday test compares `YearDay` of today and of the date of birth. The same calendar day has a different day-of-year in leap and common years | date of birth `2000-03-01` (day 61 of a leap year), today 2001-03-01 (day 60): the result is 0 on the first birthday. Also `2001-03-01` on 2004-02-29 gives 3, a day before the third birthday | the age in completed years: compare (month, day), so the n-th birthday has come and the (n+1)-th has not | high; not executed | `Dates.CalculateAge`, `Dates.CalculateAgeMissesBirthdayAfterLeapYear` | `Dates.AgeOf`, `Dates.CompletedYearsIsAge` (used by `Models.BeforeSave`) |
