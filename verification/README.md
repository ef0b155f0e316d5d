# my-auth: stores, protocols and data transformations

A Dafny model of the stateful core of my-auth: the credential, challenge and enrollment stores in their
in-memory and SQLite forms, the transactions they run in, the login, registration and deletion protocols on
top of them, the OIDC authorization-code life, and the one-shot SQLite schema migration.

Each store has a *meaning*: a function from a state and an operation to the next state and an outcome. The
classes (fields assigned in place, dictionaries, a connection with savepoints) are proved to take exactly that
step; theorems about runs, refinement and interleavings are proved about the steps.

| area | modules |
|---|---|
| encodings | `Base64Url`, `Timestamps`, `Text`, `Scopes` |
| credential store | `CredentialStore` (meaning), `MemoryCredentials`, `SqliteCredentials`, `SqliteCredentialStore` |
| transactions | `Transactions` (connection, savepoints, the store bracket), `GuardedDeletion` (several connections) |
| challenges | `ChallengeStore`, `ChallengeClasses` |
| ceremonies | `Login`, `LoginTransactions`, `PasskeyService`, `SharedTransaction` |
| enrollment | `Enrollment`, `EnrollmentClasses`, `CapabilityLifecycle` |
| OIDC | `AuthorizationCodes`, `CodeHistory`, `AuthorizationCodeStore`, `TokenRun`, `OidcClasses` |
| schema | `SchemaTables`, `SchemaDrops`, `SchemaInspection`, `SchemaMigration`, `SchemaRows`, `SchemaExamples`, `SchemaRun` |

`dafny verify dfyconfig.toml` checks the project.

## How the parts meet

- SQLite rows hold base64url keys and ISO texts. `Base64Url.RoundTrip`/`Injective` and
  `Timestamps.TextOrder`/`ParseBack` are what the store refinements rest on.
- A store outcome is a value; the source's exceptions are `Refused(...)`. A transaction that cannot be entered
  is a `Completion` other than `Completed`.
- Clocks, random values, SHA-256, the WebAuthn verifiers and the host's user adapter are parameters. Where a
  theorem needs something of them (an injective digest, a counter rule, a fresh token, a clock that never goes
  backwards) its `requires` says so.

## Where the code does not keep a promise

Each entry names the exact condition, and a lemma or contract that reaches the case: for a store from a fresh one,
for the schema from a concrete database.

- `get_user_by_handle` on the in-memory store treats a stored empty user id as no user; the SQLite store returns
  the user. The stores agree exactly on the runs without such a lookup (`SqliteCredentials.RefineRun`,
  `EmptyIdDiffers`).
- The in-memory `get_credential` hands out the live object, so the expected counter is read after another login
  has raised it, and logins that verified against one counter all succeed in non-decreasing order
  (`Login.LiveWinsExactly`, `LiveObjectAdmitsTwo`). The SQLite store builds fresh values (`Login.WinsPerLife`,
  `LoginTransactions.OneCommittedLogin`).
- In operation mode on a caller's connection with an open transaction, BEGIN raises and the handler's rollback
  discards the caller's transaction (`Transactions.Connection.OwnedOperation`).
- One flow claiming two capabilities succeeds in memory and violates the UNIQUE column in SQLite; so does
  reusing an id or digest. Agreement is exact outside those steps (`Enrollment.RefineRun`, `DoubleClaimDiffers`),
  and SQLite goes on as if the refused step had not been made (`Enrollment.RefineAnyRun`).
- The lazily purged code store and an ideal one differ exactly when a save reuses the value of a code that
  expired unredeemed, and, in the kind of error only, when such a code is consumed with a malformed verifier
  (`AuthorizationCodes.RefineRun`, `RefineGrants`, `ReuseDiffers`, `MalformedDiffers`).
- Overwriting a nonce's window forgets a nonce exactly when the new window ends earlier
  (`CodeHistory.OverwriteHarmless`, `ShorterWindowForgets`). The provider reads the clock once for a code's expiry
  and again when it saves it, so even with one code lifetime this happens if two codes for a nonce are saved in the
  opposite order of issue (`CodeHistory.OutOfOrderForgets`); saved in the order of issue, it never does
  (`CodeHistory.NonceUnderFixedLifetime`).
- A code whose scope exceeds its client's scopes still buys a token, one that UserInfo always refuses
  (`TokenRun.InsufficientScopeExactly`, `WideScopeRefused`), because the requested scope is compared with the
  client's only when the token is generated.
- A migrated 0.1 database is not always current: an enrollment table of another shape, or another table's index
  under the enrollment index's name, leaves it unsupported (`SchemaMigration.FlowKeyState`,
  `SchemaExamples.FlowKeyLeftUnsupported`); version 2 in addition needs the tables its inspection does not
  compare (`SchemaMigration.V2State`, `SchemaExamples.V2LeftUnsupported`). A 0.1 challenge table that has a
  context column loses its values (`SchemaMigration.ChallengesKept`).
- The 0.1 migration drops the old tables with foreign keys enforced, so rows of a host table that refer to a dropped
  table by CASCADE are deleted, and SET NULL or SET DEFAULT overwrites them. Another table is untouched exactly if no
  drop reaches one of its rows and no key of it names a temporary table (`SchemaMigration.FlowKeyOtherTables`,
  `SchemaExamples.HostRowsLost`).
- A migration does not inspect again once it has the write lock. A legacy database that another connection has
  migrated meanwhile makes the statements raise (`SchemaMigration.SecondMigrationRaises`), but the version 2
  statements can alter and restamp a database that inspection refuses (`SchemaMigration.MigratedAfterExactly`,
  `SchemaExamples.LaterVersionAltered`).

## Model

| member | source | states |
|---|---|---|
| Base64Url.RoundTrip | src/my_auth/passkey_models.py:21-26 | decoding the unpadded text gives back every byte string |
| Base64Url.PaddingRebuilt | src/my_auth/passkey_models.py:25-26 | the padding computed from the text length is exactly the padding that was stripped |
| Base64Url.Injective | src/my_auth/passkey_models.py:21-22 | different byte strings have different texts, so the text is safe as a primary key |
| Base64Url.TextShape | src/my_auth/passkey_models.py:21-22 | the text uses only the URL-safe alphabet and has the length of unpadded base64 |
| Base64Url.TextBySymbol | src/my_auth/passkey_models.py:21-22 | each symbol is the RFC 4648 URL-safe alphabet's at the next six bits, most significant first, zero-filled at the end |
| Base64Url.DecodesSymbols | src/my_auth/passkey_models.py:25-26 | a text of the alphabet decodes exactly if its last quad is not a single symbol, to six bits a symbol |
| Base64Url.NonAsciiRefused | src/my_auth/passkey_models.py:25-26 | a character outside ASCII is refused as such, and no other text is |
| Base64Url.DecodesAlike | src/my_auth/passkey_models.py:25-26 | the standard alphabet reads the same, and other ASCII characters are skipped |
| Timestamps.TextOrder | src/my_auth/passkey_sqlite.py:254-269 | two UTC instants compare as their stored texts do, although the fraction is dropped at zero microseconds |
| Timestamps.TextOrderIsFieldOrder | src/my_auth/passkey_sqlite.py:40-41 | the same for any two valid UTC date-times of years 1 to 9999 |
| Timestamps.FractionOrder | src/my_auth/passkey_sqlite.py:40-41 | fraction and offset together keep the order of microseconds because '+' sorts before '.' |
| Timestamps.FieldOrder | src/my_auth/passkey_sqlite.py:36-41 | calendar fields in order are instants in order |
| Timestamps.ParseBack | src/my_auth/passkey_sqlite.py:84-98 | reading a stored timestamp gives back the instant |
| Timestamps.MonthLengths | src/my_auth/passkey_sqlite.py:36-41 | the Gregorian calendar's month lengths |
| Timestamps.NextMidnight | src/my_auth/passkey_sqlite.py:36-41 | consecutive dates, across months and years, are one day of microseconds apart, from 1 January of year 1 on |
| Timestamps.TextByNumerals | src/my_auth/passkey_sqlite.py:40-41 | the stored text of every date and time, character by character |
| CredentialStore.StepKeepsConsistent | src/my_auth/passkey_memory.py:78-97 | users and users_by_handle stay inverse bijections and every credential's owner exists |
| CredentialStore.RunKeepsUsers | src/my_auth/passkey_memory.py:78-169 | over every run that holds, and no user record ever changes |
| CredentialStore.RunKeepsCredential | src/my_auth/passkey_memory.py:111-169 | until removed, a credential keeps owner, public key and transports, and its counter never decreases |
| CredentialStore.RefusalChangesNothing | src/my_auth/passkey_memory.py:78-136 | an operation that raises leaves the store as it was |
| CredentialStore.RepeatedSave | src/my_auth/passkey_memory.py:89-97 | saving a registration again is a no-op at any later time before its removal |
| CredentialStore.SaveAnswers | src/my_auth/passkey_memory.py:78-112 | exactly when a save succeeds and which conflict refuses it, and what every later lookup by id finds |
| CredentialStore.QueryAnswers | src/my_auth/passkey_memory.py:99-112 | lookups by handle and by owner find exactly what lookups by id find, but for a user whose id is empty |
| CredentialStore.SetAnswers | src/my_auth/passkey_memory.py:114-136 | exactly when a login's update is refused, and that otherwise it writes counter, device type and backup flag and nothing else |
| CredentialStore.RelabelAnswers | src/my_auth/passkey_memory.py:138-146 | only the owner relabels a credential, and only the label changes |
| CredentialStore.DeleteAnswers | src/my_auth/passkey_memory.py:148-169 | a delete removes exactly that credential, if it is the named owner's and, where one must remain, another of the user's is there |
| MemoryCredentials.MemoryCredentialStore.SaveRegistration | src/my_auth/passkey_memory.py:78-97 | moves the dictionaries by the save step and keeps the caller's object |
| MemoryCredentials.MemoryCredentialStore.CompareAndSetAfterLogin | src/my_auth/passkey_memory.py:114-136 | assigns the live object's fields by the compare-and-set step, all other credentials unchanged |
| MemoryCredentials.MemoryCredentialStore.UpdateCredentialLabel | src/my_auth/passkey_memory.py:138-146 | relabels the owner's credential in place and nothing else |
| MemoryCredentials.MemoryCredentialStore.DeleteCredential | src/my_auth/passkey_memory.py:148-169 | removes exactly that credential, or refuses for a foreign owner or the last one |
| MemoryCredentials.MemoryCredentialStore.ListCredentialsForUser | src/my_auth/passkey_memory.py:107-109 | the objects returned are exactly the user's credentials |
| MemoryCredentials.MemoryCredentialStore.GetUserByHandle | src/my_auth/passkey_memory.py:102-105 | looks a user up through the handle index |
| MemoryCredentials.MemoryCredentialStore.GetCredential | src/my_auth/passkey_memory.py:111-112 | returns the live object, whose value is the stored credential |
| SqliteCredentials.RefineSave | src/my_auth/passkey_sqlite.py:281-328 | same outcome and related stores; the path that skips the user insert is right because every stored credential's user exists |
| SqliteCredentials.RefineCompareAndSet | src/my_auth/passkey_sqlite.py:366-413 | same outcome and related stores |
| SqliteCredentials.RefineRelabel | src/my_auth/passkey_sqlite.py:415-432 | same outcome and related stores |
| SqliteCredentials.RefineDelete | src/my_auth/passkey_sqlite.py:434-475 | same outcome and related stores, guarded or not |
| SqliteCredentials.RefineList | src/my_auth/passkey_sqlite.py:348-356 | the same set of credentials |
| SqliteCredentials.CountsAgree | src/my_auth/passkey_sqlite.py:459-466 | COUNT(*) over the rows is the number of the user's credentials |
| SqliteCredentials.RefineStep | src/my_auth/passkey_sqlite.py:281-475 | every operation: same outcome, except a handle lookup that finds the empty user id, and related stores |
| SqliteCredentials.RefineRun | src/my_auth/passkey_sqlite.py:281-475 | over every run the outcomes are equal exactly if no such lookup occurs |
| SqliteCredentials.EmptyRelated | src/my_auth/passkey_memory.py:72-76 | a fresh database stands for the empty dictionaries, so runs agree from the start |
| SqliteCredentials.EmptyIdDiffers | src/my_auth/passkey_memory.py:102-105 | from fresh stores, a user registered under the empty id is found by handle in SQLite only |
| SqliteCredentials.MutationRows | src/my_auth/passkey_sqlite.py:281-432 | no statement but a delete loses a row, changes its owner or lowers its counter |
| SqliteCredentialStore.SqliteCredentialStore.SaveRegistration | src/my_auth/passkey_sqlite.py:281-328 | its statements, run one by one in either transaction mode, amount to the save step or to nothing |
| SqliteCredentialStore.SqliteCredentialStore.SaveStatements | src/my_auth/passkey_sqlite.py:286-328 | selects and inserts decide the save's outcome, and complete it when nothing raises |
| SqliteCredentialStore.SqliteCredentialStore.CompareAndSetAfterLogin | src/my_auth/passkey_sqlite.py:366-413 | in either transaction mode the conditional UPDATE and its re-read move the connection by the compare-and-set step or not at all |
| SqliteCredentialStore.SqliteCredentialStore.UpdateCredentialLabel | src/my_auth/passkey_sqlite.py:415-432 | in either transaction mode moves the connection by the relabel step or not at all |
| SqliteCredentialStore.SqliteCredentialStore.DeleteCredential | src/my_auth/passkey_sqlite.py:434-475 | in either transaction mode moves the connection by the delete step or not at all |
| SqliteCredentialStore.SqliteCredentialStore.Query | src/my_auth/passkey_sqlite.py:330-364 | queries answer from the connection's own view and change nothing |
| Transactions.TopFrame | src/my_auth/passkey_sqlite.py:188-204 | the savepoint just set is the one its name finds, whatever names the caller used |
| Transactions.Connection.ExternalOperation | src/my_auth/passkey_sqlite.py:164-210 | external mode: committed state and the caller's savepoints untouched, a raising body leaves the working state exactly as it was |
| Transactions.Connection.OwnedOperation | src/my_auth/passkey_sqlite.py:164-210 | operation mode: all or nothing is committed; with a transaction already open, BEGIN fails and that transaction is lost |
| Transactions.Connection.Run | src/my_auth/passkey_sqlite.py:177-207 | nested and sequential operations on savepoints have the meaning of plain all-or-nothing blocks |
| Transactions.Connection.CallerTransaction | src/my_auth/testing.py:66-128 | the caller's commit publishes every surviving change, its rollback none |
| Transactions.Connection.Enter | src/my_auth/passkey_sqlite.py:176-193 | how each mode is entered or refused |
| Transactions.Connection.Leave | src/my_auth/passkey_sqlite.py:194-207 | how each mode ends, restoring on a raise |
| Transactions.ScriptKeepsSurvivors | src/my_auth/testing.py:66-128 | after a script of operations the data are those of exactly the operations that completed, in order |
| Transactions.RunsWithAnyNames | src/my_auth/passkey_sqlite.py:188-204 | two connections running one script under different savepoint names, repeated ones included, end with the same data, the same result and their own savepoints |
| GuardedDeletion.LastCredentialStays | src/my_auth/passkey_sqlite.py:441-475 | under every interleaving of transactions whose deletes are guarded, a user with a committed credential keeps one |
| GuardedDeletion.NextInvariant | src/my_auth/passkey_sqlite.py:164-210 | every action of every connection, unguarded deletes included, keeps at most one lock holder, whose snapshot is the committed state |
| GuardedDeletion.NextKeeps | src/my_auth/passkey_sqlite.py:441-475 | each guarded step of any connection leaves every user with a committed credential one, because the lock is held from before the count |
| GuardedDeletion.GuardedDeleteKeeps | src/my_auth/passkey_sqlite.py:441-475 | a guarded delete leaves every user who has a credential one |
| GuardedDeletion.GuardedDeleteInSteps | src/my_auth/passkey_sqlite.py:441-475 | lock, count and removal taken one after another are the store's guarded delete |
| GuardedDeletion.AloneGuardedDelete | src/my_auth/passkey_sqlite.py:441-475 | with nobody else on the database, lock, count, removal and commit publish exactly the store's guarded delete |
| GuardedDeletion.UnguardedDeleteTakesLast | src/my_auth/passkey_sqlite.py:459-475 | the guard is what keeps the last credential |
| GuardedDeletion.UnguardedRunTakesLast | src/my_auth/passkey_sqlite.py:459-475 | one transaction with one unguarded delete commits a user's last credential away |
| GuardedDeletion.QuietDatabase | src/my_auth/passkey_sqlite.py:193 | a database with no open transaction is a possible start |
| ChallengeStore.NewRecord | src/my_auth/passkey_memory.py:39-51 | the record lies under the slot asked for and expires exactly its lifetime later |
| ChallengeStore.RecordFields | src/my_auth/passkey_memory.py:39-51 | exactly when a save is refused and why, and every field of its record, the lifetime counted in seconds |
| ChallengeStore.CleanupLeaves | src/my_auth/passkey_memory.py:61-68 | a cleanup leaves exactly the unexpired records and rows, as they were |
| ChallengeStore.RowRoundTrip | src/my_auth/passkey_sqlite.py:84-114 | a challenge read back from its row is the challenge saved |
| ChallengeStore.RunsAgree | src/my_auth/passkey_sqlite.py:224-269 | on a clock that never goes backwards both stores give the same outcome at every point of every run |
| ChallengeStore.PopFromHistory | src/my_auth/passkey_memory.py:55-59 | a pop yields a record exactly if it is the latest save for that key and kind, unpopped and unexpired |
| ChallengeStore.EachSavePopsOnce | src/my_auth/passkey_sqlite.py:254-262 | between two successful pops of a slot lies the save that the second one returns |
| ChallengeClasses.MemoryChallengeStore.Save | src/my_auth/passkey_memory.py:29-53 | moves the dictionary by the save step, or raises first |
| ChallengeClasses.MemoryChallengeStore.Pop | src/my_auth/passkey_memory.py:55-59 | takes the record out before looking at its expiry |
| ChallengeClasses.MemoryChallengeStore.CleanupExpired | src/my_auth/passkey_memory.py:61-68 | the deletion loop leaves exactly the unexpired records |
| ChallengeClasses.SqliteChallengeStore.Save | src/my_auth/passkey_sqlite.py:224-252 | in either transaction mode replaces exactly that slot's row, or raises first with nothing changed |
| ChallengeClasses.SqliteChallengeStore.Pop | src/my_auth/passkey_sqlite.py:254-262 | DELETE ... RETURNING, rolled back when no row qualifies |
| ChallengeClasses.SqliteChallengeStore.CleanupExpired | src/my_auth/passkey_sqlite.py:264-269 | deletes exactly the rows whose text is not after now's |
| Login.WinsPerLife | src/my_auth/passkeys.py:279-306 | under any interleaving of logins and other operations, removals and registrations anew included, each life of a credential admits at most one login per non-zero counter read, and none once the counter has passed it |
| Login.OneWinPerCounter | src/my_auth/passkeys.py:279-306 | so within one life of the credential at most one login succeeds per non-zero counter read |
| Login.CounterNeverDecreases | src/my_auth/passkey_sqlite.py:375-413 | a credential's counter never decreases between registration and deletion |
| Login.WinRaises | src/my_auth/passkeys.py:291-306 | a winning login found the counter it read and leaves it strictly greater |
| Login.LiveExpectation | src/my_auth/passkey_memory.py:111-136 | one compare-and-set whose expectation is the live counter refuses only a regressing counter |
| Login.LiveWinsExactly | src/my_auth/passkey_memory.py:111-136 | of any number of logins verified against one counter of the live object, a login wins exactly if no earlier one presented a greater counter |
| Login.LiveObjectAdmitsTwo | src/my_auth/passkey_memory.py:111-136 | on the objects themselves, for any counters: both logins verified, the first wins, and the second wins exactly if its counter is no smaller |
| LoginTransactions.CounterRises | src/my_auth/passkey_sqlite.py:383-403 | a statement other than a delete never lowers a counter, and a login raises it past the counter it expected |
| LoginTransactions.DeleteTakes | src/my_auth/passkey_sqlite.py:441-475 | a delete, guarded or not, takes exactly the row it names, which ends that credential's life, or changes nothing |
| LoginTransactions.FollowKeeps | src/my_auth/passkey_sqlite.py:164-210 | every action of every connection, unguarded deletes included, keeps each ledger of logins in step with its database state, through savepoints, rollbacks and stale snapshots |
| LoginTransactions.OneCommittedLogin | src/my_auth/passkey_sqlite.py:375-413 | whatever operations the transactions hold and however they interleave, commit, roll back or go stale, of the logins that read one non-zero counter in one life of a credential at most one is ever committed |
| PasskeyService.SettledContext | src/my_auth/passkeys.py:170-176 | which user and context are accepted together, and that the settled one agrees with both |
| PasskeyService.PasskeyService.BeginRegistration | src/my_auth/passkeys.py:163-202 | stores the settled context under the flow, or raises with nothing changed |
| PasskeyService.PasskeyService.VerifyRegistration | src/my_auth/passkeys.py:204-234 | consumes the challenge, checks the response against it, and builds the result, touching no credential table |
| PasskeyService.VerifiedFields | src/my_auth/passkeys.py:219-234 | exactly when a verification succeeds, and that every field of its credential is the attestation's, with no label, made now, for the record's user |
| PasskeyService.PasskeyService.BeginAuthentication | src/my_auth/passkeys.py:236-261 | stores a challenge without a user |
| PasskeyService.PasskeyService.FinishAuthentication | src/my_auth/passkeys.py:263-307 | with each store on a connection of its own: lookups and the user handle decide before the challenge is consumed, and the credential is written only after verification |
| PasskeyService.PasskeyService.RemoveCredential | src/my_auth/passkeys.py:145-161 | a guarded delete and the reason for a refusal |
| PasskeyService.RemovalAnswers | src/my_auth/passkeys.py:145-161 | unknown exactly for a credential that is not the user's, denied exactly for the user's only one |
| PasskeyService.CandidateIsOwner | src/my_auth/passkeys.py:279-289 | the login's user is the stored credential's owner, and what a user handle may be |
| PasskeyService.UninterruptedLogin | src/my_auth/passkeys.py:291-307 | a login no other operation interrupts meets no conflict and stores exactly the verified counter |
| PasskeyService.LoginIsFinish | src/my_auth/passkeys.py:291-307 | what a login writes is the Finish event of the interleavings in Login, expecting the counter it read |
| PasskeyService.ContextComesBack | src/my_auth/passkey_models.py:225-233 | the context stored at begin comes back from the record, in memory and through the row |
| PasskeyService.RegistrationReturnsContext | src/my_auth/passkeys.py:169-234 | over every run a verified registration answers the challenge of the flow's latest begin and returns its context, its credential belongs to its user, and no second one succeeds without a new begin |
| SharedTransaction.SharedPasskeyService.Pop | src/my_auth/passkey_sqlite.py:254-262 | on the caller's connection takes the pop step on the challenge table and leaves the caller's savepoints and committed state |
| SharedTransaction.SharedPasskeyService.Perform | src/my_auth/passkey_sqlite.py:281-475 | on the caller's connection takes the operation's step on the credential tables and leaves the caller's savepoints and committed state |
| SharedTransaction.SharedPasskeyService.FinishAuthentication | src/my_auth/passkeys.py:263-307 | with both stores in the caller's one transaction: exactly the login step, nothing published |
| SharedTransaction.SharedPasskeyService.Register | src/my_auth/passkeys.py:204-234 | verify_registration and save_registration in the caller's one transaction: exactly the registration step, nothing published |
| SharedTransaction.SharedPasskeyService.LoginTransaction | src/my_auth/testing.py:66-128 | the caller's commit publishes the consumed challenge and the updated credential together, its rollback neither |
| SharedTransaction.SharedPasskeyService.RegistrationTransaction | src/my_auth/testing.py:66-128 | the same for the challenge, the user and the credential of a registration |
| SharedTransaction.LoginUsesChallenge | src/my_auth/passkeys.py:290-306 | a login that got as far as verification has used its challenge up, and a failed one has changed no credential |
| SharedTransaction.RegistrationUsesChallenge | src/my_auth/passkeys.py:204-234 | a registration whose challenge was found has used it up, and a failed one has stored nothing |
| SharedTransaction.RegisterStores | src/my_auth/passkeys.py:219-234 | a registration of a new id stores exactly the attested credential, under the attested id |
| SharedTransaction.LoginExactly | src/my_auth/passkeys.py:266-307 | a login checks the response against the stored key and counter, and refuses only a failed check or a lower counter |
| SharedTransaction.RegistrationLogsIn | src/my_auth/passkeys.py:204-307 | from the attestation alone: after a committed registration, a login with the attested id is checked against the attested key and counter and answers with the registered user |
| Enrollment.NewCapability | src/my_auth/enrollment.py:72-114 | an issued capability is open, unclaimed and unexpired |
| Enrollment.CapabilityFields | src/my_auth/enrollment.py:72-114 | exactly when an issue is refused and why, and every field of its capability, the lifetime counted in seconds |
| Enrollment.IssueThenClaim | src/my_auth/enrollment.py:123-187 | from an empty store of either kind, after one issue a claim succeeds exactly with that token and purpose before the lifetime has passed, and returns that capability bound to the flow |
| Enrollment.RowBack | src/my_auth/enrollment.py:416-431 | a capability read back from its row is the capability |
| Enrollment.RefineClaim | src/my_auth/enrollment.py:350-379 | the COALESCE update and the in-memory branches agree, because flow and time are set together; a claim that gives the flow a second capability raises in SQLite and leaves the table as it was |
| Enrollment.RefineConsume | src/my_auth/enrollment.py:381-393 | same outcome and related stores |
| Enrollment.RefineRelease | src/my_auth/enrollment.py:395-403 | same outcome and related stores |
| Enrollment.RefineRevoke | src/my_auth/enrollment.py:405-413 | same outcome and related stores |
| Enrollment.RefineIssue | src/my_auth/enrollment.py:312-348 | same outcome and related stores; an issue that reuses an id or digest raises in SQLite and leaves the table as it was |
| Enrollment.RefineStep | src/my_auth/enrollment.py:312-413 | every operation agrees unless it clashes; a clash succeeds in memory, and in SQLite raises and changes nothing |
| Enrollment.RefineRun | src/my_auth/enrollment.py:151-253 | over every run the outcomes are equal exactly if nothing clashes |
| Enrollment.RefineAnyRun | src/my_auth/enrollment.py:350-413 | every SQLite run, past any number of refused clashes, gives the outcomes and contents of the in-memory steps with the clashing ones refused |
| Enrollment.FreshRelated | src/my_auth/enrollment.py:118-121 | two fresh stores are related |
| Enrollment.DoubleClaimDiffers | src/my_auth/sqlite_schema.py:20 | from empty stores, any two issued capabilities claimed by one flow are such a clash |
| EnrollmentClasses.MemoryEnrollmentCapabilityStore.Next | src/my_auth/enrollment.py:162-164 | the search loop finds the first matching record in insertion order |
| EnrollmentClasses.MemoryEnrollmentCapabilityStore.Issue | src/my_auth/enrollment.py:123-149 | ends in exactly the records and outcome of the issue step that RefineIssue relates to SQL |
| EnrollmentClasses.MemoryEnrollmentCapabilityStore.Claim | src/my_auth/enrollment.py:151-187 | ends in exactly the records and outcome of the claim step that RefineClaim relates to SQL |
| EnrollmentClasses.MemoryEnrollmentCapabilityStore.Consume | src/my_auth/enrollment.py:189-215 | ends in exactly the records and outcome of the consume step |
| EnrollmentClasses.MemoryEnrollmentCapabilityStore.Release | src/my_auth/enrollment.py:217-238 | ends in exactly the records and outcome of the release step |
| EnrollmentClasses.MemoryEnrollmentCapabilityStore.Revoke | src/my_auth/enrollment.py:240-253 | ends in exactly the records and outcome of the revoke step |
| EnrollmentClasses.SqliteEnrollmentCapabilityStore.Issue | src/my_auth/enrollment.py:312-348 | moves the table by the issue step, committed at once or left to the caller's transaction |
| EnrollmentClasses.SqliteEnrollmentCapabilityStore.Claim | src/my_auth/enrollment.py:350-379 | moves the table by the claim step; a violated UNIQUE column leaves it as it was |
| EnrollmentClasses.SqliteEnrollmentCapabilityStore.Consume | src/my_auth/enrollment.py:381-393 | moves the table by the consume step, committed at once or left to the caller's transaction |
| EnrollmentClasses.SqliteEnrollmentCapabilityStore.Release | src/my_auth/enrollment.py:395-403 | moves the table by the release step, committed at once or left to the caller's transaction |
| EnrollmentClasses.SqliteEnrollmentCapabilityStore.Revoke | src/my_auth/enrollment.py:405-413 | moves the table by the revoke step, committed at once or left to the caller's transaction |
| EnrollmentClasses.SqliteEnrollmentCapabilityStore.Enter | src/my_auth/enrollment.py:297-300 | opens a transaction only if none is open |
| EnrollmentClasses.SqliteEnrollmentCapabilityStore.Leave | src/my_auth/enrollment.py:302-307 | ends only the transaction it opened |
| CapabilityLifecycle.RunKeepsIds | src/my_auth/enrollment.py:123-253 | no operation of either store, over any run, makes two capabilities share an id |
| CapabilityLifecycle.StepLifecycle | src/my_auth/enrollment.py:151-253 | one operation of either store takes a stored capability through at most one allowed transition, double claims included |
| CapabilityLifecycle.ConsumeNeedsHolder | src/my_auth/enrollment.py:189-215 | in either store what is consumed was held by that flow, unexpired and open |
| CapabilityLifecycle.IssueAnswers | src/my_auth/enrollment.py:123-149 | what an issue leaves in either store, and when SQLite refuses it |
| CapabilityLifecycle.ClaimAnswers | src/my_auth/enrollment.py:151-187 | exactly when the holder of a token may claim its capability in either store, and what is bound to the flow |
| CapabilityLifecycle.ConsumeAnswers | src/my_auth/enrollment.py:189-215 | exactly when a flow's capability is consumed |
| CapabilityLifecycle.ReleaseAnswers | src/my_auth/enrollment.py:217-238 | exactly when it is released, expired or not |
| CapabilityLifecycle.RevokeAnswers | src/my_auth/enrollment.py:240-253 | exactly when a capability is revoked, claimed or not and expired or not |
| CapabilityLifecycle.RunLifecycle | src/my_auth/enrollment.py:151-253 | over every run of either store in which the capability's random id is not issued anew, identity, purpose, subject and expiry never change, and consumed and revoked are absorbing and exclusive |
| CapabilityLifecycle.ConsumedAtMostOnce | src/my_auth/enrollment.py:189-215 | over the same runs a capability is consumed at most once, and never once it is consumed or revoked |
| CapabilityLifecycle.HandoverNeedsRelease | src/my_auth/enrollment.py:217-238 | over the same runs another flow can hold it only after a release took it from the holder |
| CapabilityLifecycle.LifecycleFromStart | src/my_auth/enrollment.py:151-253 | all of that from an empty store of either kind, after any earlier run |
| CapabilityLifecycle.SqliteLifecycle | src/my_auth/enrollment.py:350-413 | all of that on the SQLite table itself, over every run, with no condition on its operations |
| Text.SplitJoin | src/my_auth/oidc.py:378-379 | splitting a space-joined scope gives back its items |
| Text.SplitStrip | src/my_auth/oidc.py:73-85 | surrounding whitespace does not change the items |
| Text.SplitAtSpaces | src/my_auth/oidc.py:81-89 | a text splits at exactly the ASCII whitespace characters, named one by one |
| Text.TrimmedIsStripped | src/my_auth/enrollment.py:75-82 | the model's test for trimmed texts is the source's: non-empty and equal to its own strip() |
| Scopes.TupleIsSplit | src/my_auth/oidc.py:81-88 | the parsed scope is the list of words, refused exactly when one repeats |
| Scopes.GrantedIsRequested | src/my_auth/oidc.py:264-270 | a granted scope reads back as exactly the requested items, and when it is refused or raises |
| Scopes.GrantIsStable | src/my_auth/oidc.py:264-270 | asking for what was granted grants the same |
| Scopes.EmptyRequestGrantsAll | src/my_auth/oidc.py:264-270 | a request for nothing is granted all the client's items |
| AuthorizationCodes.AuthorizationCode.Issue | src/my_auth/oidc.py:324-368 | exactly which arguments are accepted, and the code they give |
| AuthorizationCodes.AuthorizationCode.Redeem | src/my_auth/oidc.py:396-417 | succeeds exactly for a well-formed verifier, an unredeemed and unexpired code, and matching client, redirect URI and S256 challenge |
| AuthorizationCodes.ChallengeWellFormed | src/my_auth/oidc.py:91-113 | the S256 challenge of a 32-byte digest passes the challenge check |
| AuthorizationCodes.OnlyItsVerifier | src/my_auth/oidc.py:109-113 | under an injective digest a code accepts its own verifier and no other |
| AuthorizationCodes.WellFormedExactly | src/my_auth/oidc.py:26 | verifiers and challenges have 43 to 128 characters, each a letter, a digit or one of four marks |
| AuthorizationCodes.ChallengeText | src/my_auth/oidc.py:109-113 | the S256 challenge is the verifier's digest, six bits a symbol |
| AuthorizationCodes.RefineStep | src/my_auth/oidc.py:449-516 | lazy cleanup and the ideal store agree on one operation, except for the two cases named |
| AuthorizationCodes.RefineRun | src/my_auth/oidc.py:449-516 | over every run on a clock that never goes backwards they agree exactly if neither case occurs |
| AuthorizationCodes.RefineGrants | src/my_auth/oidc_fastapi.py:343-354 | with both errors turned into invalid_grant they agree exactly if no save reuses such a value |
| AuthorizationCodes.FailureIsInvisible | src/my_auth/oidc.py:472-516 | leaving out an operation that neither saved nor consumed changes no outcome of any later run, so a failed consume leaves every code as redeemable |
| AuthorizationCodes.EmptyRelated | src/my_auth/oidc.py:443-447 | an empty store is related to the ideal one |
| AuthorizationCodes.ReuseDiffers | src/my_auth/oidc.py:461-467 | from empty stores, saving a code's value again after it expired succeeds, and the ideal store refuses it |
| AuthorizationCodes.MalformedDiffers | src/my_auth/oidc.py:495-505 | from empty stores, a malformed verifier for an expired code is refused with another error than the ideal store's |
| CodeHistory.ConsumeFromHistory | src/my_auth/oidc.py:486-507 | a consume returns a code exactly if that object was saved under the value, never redeemed, unexpired, and everything matches |
| CodeHistory.RedeemedOnce | src/my_auth/oidc.py:396-417 | no code object is redeemed twice in any run, even if saved again in between |
| CodeHistory.GetFromHistory | src/my_auth/oidc.py:472-484 | a get returns a code exactly if that object was saved under the value, never redeemed, is unexpired and belongs to the client that asks, and nothing otherwise |
| CodeHistory.SaveFromHistory | src/my_auth/oidc.py:445-470 | a save is refused exactly if a code saved under its value is still held: not consumed since, and unexpired or saved redeemed |
| CodeHistory.NonceFromHistory | src/my_auth/oidc.py:509-516 | a nonce counts as used exactly within the window of the last code saved with it, consumed or not |
| CodeHistory.NonceFromAnySave | src/my_auth/oidc.py:461-470 | where codes saved for the nonce expire in order, exactly within the window of any of them |
| CodeHistory.FixedLifetimeInOrder | src/my_auth/oidc_fastapi.py:304-305 | codes of one fixed lifetime, saved in the order of their issue, expire in order |
| CodeHistory.NonceUnderFixedLifetime | src/my_auth/oidc.py:509-516 | so with one fixed lifetime and codes saved in the order of issue, a nonce counts as used exactly within the window of some code saved with it |
| CodeHistory.OverwriteHarmless | src/my_auth/oidc.py:468-470 | an overwrite keeps every used nonce used exactly if the new window does not end earlier |
| CodeHistory.ShorterWindowForgets | src/my_auth/oidc.py:468-470 | from an empty store, a second code with a shorter window forgets the nonce within the first one's window |
| CodeHistory.OutOfOrderForgets | src/my_auth/oidc_fastapi.py:304-311 | so do two codes of one lifetime saved in the opposite order of issue |
| AuthorizationCodeStore.MemoryAuthorizationCodeStore.Cleanup | src/my_auth/oidc.py:449-459 | the two loops remove exactly the expired unredeemed codes and the ended windows |
| AuthorizationCodeStore.MemoryAuthorizationCodeStore.Save | src/my_auth/oidc.py:461-470 | ends in exactly the state and outcome of the save step, every redeemed flag untouched |
| AuthorizationCodeStore.MemoryAuthorizationCodeStore.Get | src/my_auth/oidc.py:472-484 | ends in exactly the state and outcome of the get step, whose answer CodeHistory.GetFromHistory gives, every redeemed flag untouched |
| AuthorizationCodeStore.MemoryAuthorizationCodeStore.Consume | src/my_auth/oidc.py:486-507 | marks that object and no other, and drops its entry, or changes nothing but the purge |
| AuthorizationCodeStore.MemoryAuthorizationCodeStore.HasNonce | src/my_auth/oidc.py:509-516 | answers as the nonce step and drops only the ended window it was asked for |
| TokenRun.ClaimsAreAllowed | src/my_auth/oidc.py:804-833 | a user's claims are its own subject and exactly what the adapter offers of the claims that openid with profile, and openid with email, stand for, name by name |
| TokenRun.ResolvedSubject | src/my_auth/oidc.py:792-799 | a resolved user has the subject asked for, by the adapter or by the fallback comparison |
| TokenRun.ResolvedExactly | src/my_auth/oidc.py:792-799 | which user a subject resolves to: the hook's answer, or without a hook the fallback if the subject is its own |
| TokenRun.ServeKeepsTraced | src/my_auth/oidc_fastapi.py:332-371 | one request keeps every token tied to its own redeemed code: client, subject, scope items |
| TokenRun.FreshTraced | src/my_auth/oidc.py:775-776 | a fresh provider starts so tied |
| TokenRun.RunKeepsTraced | src/my_auth/oidc_fastapi.py:282-371 | over every run access tokens lead injectively back to redeemed codes |
| TokenRun.OneTokenPerCode | src/my_auth/oidc_fastapi.py:343-366 | in no run do two exchanges buy a token with one code |
| TokenRun.SpentBuysNothing | src/my_auth/oidc_fastapi.py:343-358 | a redeemed code never buys a token |
| TokenRun.ServeKeepsRedeemed | src/my_auth/oidc_fastapi.py:343-358 | a consumed code stays redeemed even if the exchange is refused afterwards |
| TokenRun.GrantedExactly | src/my_auth/oidc_fastapi.py:332-371 | exactly when an exchange grants a token |
| TokenRun.ExchangeAnswers | src/my_auth/oidc_fastapi.py:332-371 | every answer of the token endpoint, in the order of its checks |
| TokenRun.GrantStores | src/my_auth/oidc_fastapi.py:332-371 | the record a granted exchange stores: client, expiry, user, subject and the code's scope or none of it |
| TokenRun.AuthorizeAnswers | src/my_auth/oidc_fastapi.py:282-311 | a code is accepted and stored exactly if none is held under its value |
| TokenRun.LookupAnswers | src/my_auth/oidc_fastapi.py:313-318 | a lookup finds a code exactly for its own client, unredeemed and unexpired |
| TokenRun.UserInfoExactly | src/my_auth/oidc_fastapi.py:614-637 | exactly when UserInfo answers |
| TokenRun.UserInfoMatchesCode | src/my_auth/oidc_fastapi.py:614-637 | it returns the code's subject and only claims that the code's scope stands for by name |
| TokenRun.UserInfoByName | src/my_auth/oidc_fastapi.py:614-637 | it holds, beside the subject, exactly those claims that the adapter offers and the code's scope stands for |
| TokenRun.UserInfoAnswers | src/my_auth/oidc_fastapi.py:614-637 | every answer of UserInfo, in the order of its checks |
| TokenRun.TokenLifeExactly | src/my_auth/oidc_fastapi.py:332-371 | over every run after an exchange, UserInfo answers exactly if the token was not revoked, its lifetime has not passed, and the code's whole scope is its client's |
| TokenRun.InsufficientScopeExactly | src/my_auth/oidc_fastapi.py:625-628 | a live token is refused for its scope exactly when its code asked for more than its client may have |
| TokenRun.WideScopeRefused | src/my_auth/oidc_fastapi.py:360-366 | from a fresh provider, a code that asks for an item its client may not have buys a token that UserInfo refuses |
| TokenRun.ReplayedExactly | src/my_auth/oidc_fastapi.py:406-409 | over every run of a provider with one code lifetime whose codes are saved in the order of issue, a nonce counts as replayed exactly within the window of some code accepted for that client and nonce |
| OidcClasses.Storable | src/my_auth/oidc.py:602-651 | exactly which mappings are stored: a token text, bearer type in any case, a future expiry from either field, a textual refresh token if any |
| OidcClasses.StorableFields | src/my_auth/oidc.py:602-651 | what a stored token holds: a given lifetime counts from now and wins over an absolute expiry |
| OidcClasses.BearerInAnyCase | src/my_auth/oidc.py:610-612 | the type is the word bearer with each letter in either case |
| OidcClasses.MemoryTokenStore.Save | src/my_auth/oidc.py:592-654 | stores a new record under the token's digest exactly for those mappings, and otherwise changes nothing |
| OidcClasses.MemoryTokenStore.GetAccessToken | src/my_auth/oidc.py:656-666 | finds a record exactly while it is unrevoked and unexpired |
| OidcClasses.MemoryTokenStore.RevokeAccessToken | src/my_auth/oidc.py:668-674 | marks that record and no other |
| OidcClasses.OidcProvider.SaveAuthorizationCode | src/my_auth/oidc_fastapi.py:282-311 | exactly when a code object is made, what it holds, and that saving it, at a second reading of the clock, is the authorize step |
| OidcClasses.OidcProvider.SaveToken | src/my_auth/oidc_fastapi.py:441-454 | stores the generated bearer token for the user's own subject, or raises with nothing stored |
| OidcClasses.OidcProvider.QueryAuthorizationCode | src/my_auth/oidc_fastapi.py:313-318 | looks a code up, as the lookup step |
| OidcClasses.OidcProvider.ExistsNonce | src/my_auth/oidc_fastapi.py:406-409 | asks for a used nonce, as the replay step |
| OidcClasses.OidcProvider.CreateTokenResponse | src/my_auth/oidc_fastapi.py:332-371 | consume, resolve, generate and save amount to the exchange step |
| OidcClasses.OidcProvider.UserInfo | src/my_auth/oidc_fastapi.py:614-637 | answers as the UserInfo step and changes nothing |
| OidcClasses.OidcProvider.Revocation | src/my_auth/oidc_fastapi.py:656-657 | revokes that token and no other, as the revoke step |
| SchemaTables.InsertAllExactly | src/my_auth/sqlite_schema.py:557-622 | a copy loop succeeds exactly if every row meets the constraints, and then keeps every row in order |
| SchemaDrops.DoomedLeast | src/my_auth/sqlite_schema.py:646-647 | a drop deletes the table's rows and, transitively, exactly those that refer to a deleted row by CASCADE |
| SchemaDrops.DropForbidden | src/my_auth/sqlite_schema.py:646-647 | a row that stays and refers to a deleted one by any other key forbids the drop |
| SchemaDrops.ResetExactly | src/my_auth/sqlite_schema.py:646-647 | SET NULL and SET DEFAULT overwrite exactly the columns whose key refers to a deleted row |
| SchemaDrops.DropAllExactly | src/my_auth/sqlite_schema.py:646-647 | the drops change exactly the tables one of them reaches, and what one deletes or overwrites no later one restores |
| SchemaDrops.EnclosedStay | src/my_auth/sqlite_schema.py:551-553 | tables that refer only to one another, as the copies do, come through all drops unchanged |
| SchemaDrops.Undisturbed | src/my_auth/sqlite_schema.py:646-647 | no drop reaches another table if no acting key of another table names a dropped one |
| SchemaInspection.ApplyEnrollmentExactly | src/my_auth/sqlite_schema.py:265-266 | what the IF NOT EXISTS statements do, and their one failure |
| SchemaInspection.EnrollmentApplied | src/my_auth/sqlite_schema.py:177-202 | when the enrollment table passes inspection afterwards |
| SchemaInspection.InspectByName | src/my_auth/sqlite_schema.py:279-397 | what empty, current, unversioned and version 2 mean, by the names of tables, columns, keys and indexes |
| SchemaInspection.FlowKeyByName | src/my_auth/sqlite_schema.py:279-397 | what the 0.1 layout means, by the names of its columns |
| SchemaMigration.DecodedB64 | src/my_auth/sqlite_schema.py:482-485 | a re-encoded key still stands for the same bytes |
| SchemaMigration.B64Merges | src/my_auth/sqlite_schema.py:482-485 | two keys collide exactly if one is a blob and the other already its encoding |
| SchemaMigration.CredentialsKept | src/my_auth/sqlite_schema.py:566-606 | every decoded credential is kept, whichever optional columns the old table had |
| SchemaMigration.ChallengesKept | src/my_auth/sqlite_schema.py:612-622 | every decoded challenge is kept with flow_key as key; context values, which the 0.1 layout does not have, become NULL |
| SchemaMigration.FlowKeyKeepsRows | src/my_auth/sqlite_schema.py:545-674 | a successful 0.1 migration decodes to exactly the old users, credentials and challenges, in order, whatever refers to the old tables |
| SchemaMigration.FlowKeyOtherTables | src/my_auth/sqlite_schema.py:646-654 | every other table stays with its columns and indexes, and is untouched if and only if no drop deletes or overwrites one of its rows and no key of it names a temporary table |
| SchemaMigration.FlowKeyLeavesTexts | src/my_auth/sqlite_schema.py:557-674 | it leaves no binary handle or credential id behind, and a database that passes the foreign key check |
| SchemaMigration.MismatchedKeyRaises | src/my_auth/sqlite_schema.py:666-667 | a host table whose key names neither the users' id nor their handle makes it raise |
| SchemaMigration.OthersUntouched | src/my_auth/sqlite_schema.py:646-654 | so a table whose database has no acting key on the replaced tables is untouched, whatever it holds |
| SchemaMigration.FlowKeyState | src/my_auth/sqlite_schema.py:664-674 | it inspects as current exactly if the enrollment table was absent or canonical |
| SchemaMigration.V2KeepsRows | src/my_auth/sqlite_schema.py:526-544 | altering version 2 keeps every decoded row and touches no other table |
| SchemaMigration.V2State | src/my_auth/sqlite_schema.py:365-392 | it is current exactly if what the v2 check does not compare is canonical too |
| SchemaMigration.EnsuredState | src/my_auth/sqlite_schema.py:400-479 | when an ensured database is current |
| SchemaMigration.UnversionedBecomesCurrent | src/my_auth/sqlite_schema.py:516-519 | version 3 tables without a stamp are stamped, by a migration as by ensuring, and current unless another table holds the enrollment index's name |
| SchemaMigration.EnsuredKeepsRows | src/my_auth/sqlite_schema.py:400-479 | ensuring loses no row or column of any table |
| SchemaMigration.MigrateAgain | src/my_auth/sqlite_schema.py:516-525 | a migration ends current or unsupported, and migrating again changes nothing |
| SchemaMigration.MigratedAfterExactly | src/my_auth/sqlite_schema.py:516-546 | a database committed by others before the lock is migrated if it is in the state that was seen; otherwise the statements raise, unless version 2 statements meet an unsupported database |
| SchemaMigration.SecondMigrationRaises | src/my_auth/sqlite_schema.py:526-554 | of two connections that saw one legacy database, the second to get the lock raises and changes nothing |
| SchemaExamples.FreshSchema | src/my_auth/sqlite_schema.py:400-479 | an empty database becomes current: five named tables, stamped 3 and otherwise empty, with the keys and unique columns the stores rely on |
| SchemaExamples.FlowKeyBecomesCurrent | src/my_auth/sqlite_schema.py:545-674 | a 0.1 database without an enrollment table migrates and is current |
| SchemaExamples.FlowKeyLeftUnsupported | src/my_auth/sqlite_schema.py:265-266 | with an enrollment table of another shape it migrates and is unsupported |
| SchemaExamples.V2LeftUnsupported | src/my_auth/sqlite_schema.py:217-245 | a version 2 database whose handles are not unique migrates and is unsupported |
| SchemaExamples.HostRowsLost | src/my_auth/sqlite_schema.py:646-647 | a 0.1 database with a host table that refers to the users by CASCADE migrates, is current, keeps the user and loses the host's row |
| SchemaExamples.LaterVersionAltered | src/my_auth/sqlite_schema.py:526-539 | a database of a later version, committed after the inspection, is altered by the version 2 statements |
| SchemaRows.UsersFitExactly | src/my_auth/sqlite_schema.py:548-550 | which users the new table accepts, column by column |
| SchemaRows.CredentialsFitExactly | src/my_auth/sqlite_schema.py:551-553 | which credentials the new table accepts, column by column, and that each needs its user |
| SchemaRows.ChallengesFitExactly | src/my_auth/sqlite_schema.py:554-556 | which challenges the new table accepts, column by column |
| SchemaRows.MigratedHasParents | src/my_auth/sqlite_schema.py:666-667 | after a migration every row of every table, a host's too, has the parents its keys name |
| SchemaRun.CopyUsers | src/my_auth/sqlite_schema.py:557-565 | succeeds exactly if all re-encoded users fit, and then the new table holds them all in order |
| SchemaRun.CopyCredentials | src/my_auth/sqlite_schema.py:585-606 | succeeds exactly if all re-encoded credentials fit and have their users, and then the new table holds them all in order |
| SchemaRun.CopyChallenges | src/my_auth/sqlite_schema.py:612-622 | succeeds exactly if all re-encoded challenges fit, and then the new table holds them all in order |
| SchemaRun.DropTables | src/my_auth/sqlite_schema.py:646-647 | the loop of drops goes through exactly if no row that stays forbids one, and leaves what the drops, with their cascades and resets, leave |
| SchemaRun.SwapTables | src/my_auth/sqlite_schema.py:646-654 | drops and renames put the copies, which no cascade reaches, in place, with every key that named a temporary table redirected |
| SchemaRun.MigrateFlowKey | src/my_auth/sqlite_schema.py:545-668 | on any database, the statements succeed exactly on the migratable 0.1 ones and leave the migrated one |
| SchemaRun.MigrateV2 | src/my_auth/sqlite_schema.py:526-539 | on any database, the statements succeed exactly if the two columns are missing, the tables exist and the enrollment schema can be applied, and leave the upgraded database |
| SchemaRun.Ensure | src/my_auth/sqlite_schema.py:400-479 | standalone, whatever other connections committed before the write lock was held: the ensured database is committed or theirs stays; external: left to the caller |
| SchemaRun.Migrate | src/my_auth/sqlite_schema.py:488-674 | standalone, whatever other connections committed before the write lock was held: the migration of that database is committed or theirs stays; external: left to the caller |

## Left out

- WebAuthn attestation and assertion cryptography, JOSE signing, RSA keys and JWKS: oracles or absent.
- SHA-256 and random generation: any function and any value; a theorem that needs injectivity or freshness
  requires it.
- Authlib's request parsing and order of calls: the provider's own methods are requests that may arrive in any
  order. The token generator is taken to ask the client for its allowed scope, as Authlib's bearer generator does.
- FastAPI routing, cookies, rate limits, HTMX, i18n, configuration and client checks, URL and origin validation:
  plumbing, or claims one branch settles.
- ID tokens, `auth_time`, `acr` and `amr`: carried through unchanged.
- SQLite itself: its savepoint, snapshot, lock, constraint and rename rules are the model's semantics. Busy
  timeouts, PRAGMAs other than `foreign_keys`, WAL files and checkpoints are not modelled.
- Naive datetimes and offsets other than UTC: every instant is a count of microseconds since year 1.
- `fromisoformat` accepts more spellings than the stores write; the model parses the written one.
- Integers are unbounded, so SQLite's 64-bit limit on counters is not modelled.
- JSON encoding of transports, and claim values: opaque values that round-trip.
- The count returned by `cleanup_expired` and the listing order of credentials: the implementations
  legitimately differ.
- Whitespace is ASCII whitespace.
- Thread locks of the in-memory stores: their methods are atomic steps.
- A code or token object changed from outside its store, other than by being saved again.
- Users: adapter functions are total and unchanging; a host whose adapters raise or change over time is not modelled.
- PasskeyService: the descriptors and options sent to the browser are not modelled.
- A refresh token's text is checked and not kept: the provider never makes one.
- `int()` on a text is a parameter of the token store, and a float counts as the integer it truncates to.
- SchemaRun.Migrate: no other connection commits between its inspection and the one `ensure_sqlite_schema` makes, or
  between its commit and the inspection it returns.
- SchemaDrops.Drop: deferrable keys, keys of several columns, ON UPDATE actions of a column that a drop resets, and a
  RESTRICT key of a row that is deleted itself, which SQLite refuses or not by the order of the rows. Two keys that
  reset one column act in the order they are declared. A default other than NULL stands for its text.
- SchemaInspection: diagnostic texts, views, triggers, partial indexes, and a version stored as text. Type names
  are upper-case as compared. A metadata table without a version column counts as unsupported instead of raising.
- SchemaTables: type affinity; values keep the storage class they are inserted with.
