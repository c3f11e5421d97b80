# User service core in Dafny

This project models the two pieces of logic in a small Go user-management service.

**The input validator** (`utils/validation.go`) checks a user record before it is created or updated. It applies five rules in order, and the first failure decides the error:
1. name, e-mail and password must be non-blank after `strings.TrimSpace`;
2. the e-mail must match a case-insensitive regular expression;
3. the password must be 8–100 bytes long and contain an ASCII upper-case letter (`A`–`Z`), an ASCII lower-case letter (`a`–`z`), an ASCII digit (`0`–`9`) and a special rune;
4. the name must be 3–50 bytes long;
5. on creation only, the e-mail must not already be stored.

**The five HTTP handlers** (`handlers/user.go`) work over a users table: list with pagination, get, create, update and delete.

In the model, the table is a `map<Id, User>` held by the class `Handlers.UserStore`, and each handler is a method that updates it. Whatever a handler gets from outside arrives as a parameter:
- the parsed query parameters and request body;
- the path identifier;
- the clock, the fresh UUID, and the password hasher and checker;
- every database failure.

A write transaction works on a private copy of the table that only a successful commit publishes.

The modules are:
- `Wrappers`: the `Option` and `Result` datatypes.
- `Text`: string helpers.
  - `unicode.IsSpace` and `strings.TrimSpace`, which the validator calls.
  - `len` as the UTF-8 byte count of a rune sequence, which the validator applies.
  - The first and last index of a rune. The recogniser that replaces the regular expression uses these.
- `Models`: the user row, the paginated listing and the HTTP response.
- `Validation`: `utils/validation.go`.
  - The password rule is a loop method that sets four flags. It is proved equal to a specification function.
  - The e-mail rule is a recogniser that splits at the first `@` and then at the last `.` of the domain. It is proved equivalent to a declarative reading of the regular expression.
  - The rule chain is a function, with lemmas that state its order.
- `Handlers`: `handlers/user.go`, covering pagination and the `UserStore` class.
- `Scenarios`: concrete inputs checked against the rules.

Behaviour of the code worth noting:
- The name rule counts bytes with Go's `len`, so it accepts 3–50 bytes, not 3–50 characters.
- An update must still carry a non-blank, strong password, although the update handler never stores it.
- The duplicate check compares against every stored row, whether or not the row is active.

## Model

| member | source | states |
|---|---|---|
| Text.TrimSpace | utils/validation.go:12 | no contract of its own: `strings.TrimSpace` as `TrimLeft` then `TrimRight`; properties in `TrimLeft`, `TrimRight` and `TrimSpaceEmptyIffAllSpace` |
| Text.TrimLeft | utils/validation.go:12 | the result is a suffix of the input, everything removed is white space, and what is left starts with a non-space rune |
| Text.TrimRight | utils/validation.go:12 | the result is a prefix of the input, everything removed is white space, and what is left ends with a non-space rune |
| Text.TrimSpaceEmptyIffAllSpace | utils/validation.go:12 | a field trims to the empty string exactly when every rune in it is Unicode white space |
| Text.Utf8Width | utils/validation.go:24 | a rune takes 1 to 4 bytes in UTF-8, and exactly 1 when it is ASCII |
| Text.ByteLen | utils/validation.go:24 | Go's `len` of a string is at least its rune count, and equal to it exactly when the string is ASCII |
| Text.IndexOf | utils/validation.go:43 | returns the first position holding the rune, or none when no position does |
| Text.LastIndexOf | utils/validation.go:43 | returns the last position holding the rune, or none when no position does |
| Validation.ValidationError.Message | utils/validation.go:13-66 | no contract of its own: the exact error texts of lines 13, 17, 25, 34, 51 and 66; a lookup failure keeps its own text |
| Validation.IsValidEmail | utils/validation.go:42-46 | no contract of its own: the recogniser that splits at the first `@` and the domain's last `.`; properties in `RecogniserSound`, `RecogniserComplete` and `IsValidEmailMatchesPattern` |
| Validation.RecogniserSound | utils/validation.go:42-46 | every address the recogniser accepts matches the regular expression |
| Validation.FirstAtOfLocalPart | utils/validation.go:43 | an `@` preceded only by local-part runes is the first `@` in the address |
| Validation.LastDotBeforeLetters | utils/validation.go:43 | a `.` followed only by letters is the last `.` in the domain |
| Validation.AcceptedAtSplit | utils/validation.go:42-46 | the recogniser accepts when the first `@` and the domain's last `.` delimit a non-empty local part, a non-empty domain and at least two letters |
| Validation.RecogniserComplete | utils/validation.go:42-46 | every split that matches the regular expression makes the recogniser accept |
| Validation.IsValidEmailMatchesPattern | utils/validation.go:42-46 | the format rule accepts exactly the texts the anchored, case-insensitive pattern matches (local part, `@`, domain, `.`, two or more letters) |
| Validation.SingleAt | utils/validation.go:43 | an accepted address contains exactly one `@` |
| Validation.IsSpecialIsMembership | utils/validation.go:61 | a rune counts as special exactly when it is in the fixed 31-rune special set |
| Validation.PasswordCheck | utils/validation.go:48-69 | no contract of its own: the length test on bytes first, then the four ASCII classes; the loop method is proved equal to it |
| Validation.ValidatePasswordStrength | utils/validation.go:48-69 | the one-pass flag loop returns exactly the verdict of the password rule: length error, class error or none |
| Validation.PasswordLengthComesFirst | utils/validation.go:50-52 | a password whose byte length is outside 8..100 gets the length error, whatever runes it holds |
| Validation.PasswordAcceptedIffAllClasses | utils/validation.go:53-67 | with a valid length, the password passes exactly when all four classes occur, and otherwise gets the class error |
| Validation.InsertKeepsOccurrence | utils/validation.go:53-64 | inserting a rune that is outside a class does not change whether the class occurs |
| Validation.NeutralRuneIgnored | utils/validation.go:53-64 | a rune of no class (space, non-ASCII) inserted anywhere neither counts towards nor causes rejection |
| Validation.NameLengthBoundaries | utils/validation.go:24-26 | for ASCII names, lengths 3 and 50 pass the name rule and lengths 2 and 51 fail it |
| Validation.EmailExists | utils/validation.go:71-78 | no contract of its own: a failing query yields its error, otherwise whether some stored row has the e-mail; properties in `InsertedEmailIsFound`, `RemovedEmailIsGone` and `KnownEmailRejected` |
| Validation.InsertedEmailIsFound | utils/validation.go:71-78 | once a row is stored, the duplicate query for its e-mail answers true |
| Validation.RemovedEmailIsGone | utils/validation.go:71-78 | once the only row holding an e-mail is removed, the duplicate query for it answers false |
| Validation.KnownEmailRejected | utils/validation.go:28-36 | a record accepted against one table is refused with "email is already registered" on creation against any table that holds its e-mail |
| Validation.ValidateUserInput | utils/validation.go:11-39 | no contract of its own: the five rules in source order, first failure wins; properties in `RuleOrder` and `FirstFailureWins` |
| Validation.RuleOrder | utils/validation.go:11-39 | each verdict happens exactly when every earlier rule passed and its own rule failed, checked against the predicates the validator applies; the result is none exactly when all rules pass |
| Validation.FirstFailureWins | utils/validation.go:12-36 | the same order, stated on the declarative rules: all-white-space fields, the regular expression, password strength, name length, then the duplicate lookup on creation only |
| Validation.AcceptedInputIsWellFormed | utils/validation.go:11-39 | an accepted record satisfies every rule, including "no stored row has this e-mail" on creation |
| Validation.WellFormedInputIsAccepted | utils/validation.go:11-39 | a record that satisfies every rule is accepted |
| Validation.NameRuleDecides | utils/validation.go:24-26 | a record that passes the first three rules but has a name outside 3..50 bytes gets the name error |
| Validation.LookupErrorPassedThrough | utils/validation.go:28-32 | on creation, after the first four rules pass, a failing duplicate query becomes the validation error itself |
| Validation.PasswordRequiredOnUpdate | utils/validation.go:12-14 | a blank name, e-mail or password gives the missing-fields error, on update as on creation |
| Validation.UpdateIgnoresTable | utils/validation.go:28-36 | on update, the verdict depends neither on the stored rows nor on the lookup |
| Handlers.MulAtLeast | handlers/user.go:44 | helper of `Handlers.Offset`, not a behaviour of the source: a positive multiple of a non-negative page size is at least that size |
| Handlers.DivModUnique | handlers/user.go:44 | helper of `Handlers.Offset`, not a behaviour of the source: quotient and remainder are unique, so an offset of `(page-1)*limit` divides back to `page-1` |
| Handlers.Offset | handlers/user.go:44 | the offset is non-negative, a multiple of the limit, and the number of whole pages before the requested one |
| Handlers.ConsecutivePagesAdjoin | handlers/user.go:44 | page `p+1` starts exactly where page `p` ends, so the pages tile the rows without gap or overlap |
| Handlers.Pagination | handlers/user.go:27-44 | page defaults to 1 and limit to 10; a parsed positive value replaces its default and anything else keeps it; the offset properties hold |
| Handlers.WrapInt64 | handlers/user.go:44 | Go's 64-bit arithmetic: the result is in int64 range and congruent to the exact value modulo 2^64 |
| Handlers.GoOffset | handlers/user.go:44 | no contract of its own: `(page - 1) * limit` on Go's 64-bit `int`, by `WrapInt64`; its wrap is shown in `GoOffsetWraps` |
| Handlers.GoOffsetWraps | handlers/user.go:30-44 | with in-range page and limit, the 64-bit offset can wrap to 0 (the first page again) or go negative |
| Handlers.UserStore.GetAllUsers | handlers/user.go:20-92 | any failing step gives 500. Otherwise: 200 with the effective page and limit, `total_users` equal to the full row count, at most `limit` users, and entry `i` being id, name and e-mail only of the row at scan position `offset + i` |
| Handlers.UserStore.GetUser | handlers/user.go:95-123 | a failing query gives 500, an absent id 404 "User not found", and a present id that row's id, name, e-mail, timestamps and activity flag with an empty password |
| Handlers.UserStore.CreateUser | handlers/user.go:126-192 | invalid payload gives 400; a rejected record gives 400 with the validator's message; a hash error, hash mismatch or begin/insert/commit failure gives 500. Every failure leaves the table unchanged. 201 happens exactly when all steps succeed, and then exactly one row is added: active, created and updated at `now`, holding the hash, and returned without a password |
| Handlers.UserStore.UpdateUser | handlers/user.go:196-247 | invalid payload or rejected record gives 400, a transaction failure 500, and each leaves the table unchanged. On 200, only the name, e-mail and update time of the row at the path id change (nothing when the id is absent), and the response is the body with `updated_at = now` and no password |
| Handlers.UserStore.DeleteUser | handlers/user.go:252-301 | a begin or read failure gives 500, an absent id 404, and a later failure 500, each with the table unchanged. On 200, exactly that row is removed and the message names the removed row's name, id and e-mail |
| Handlers.GetIsRepeatable | handlers/user.go:95-123 | two reads of the same id with no write in between give the same answer, 200 exactly when the row exists |
| Handlers.DuplicateCreateRejected | handlers/user.go:134-137 | after a successful create, a second create of the same body gets 400 "email is already registered", and only the first row is stored |
| Handlers.DeleteFreesEmail | handlers/user.go:252-301 | deleting the only row holding an e-mail succeeds, and afterwards the duplicate query for that e-mail answers false |
| Handlers.DeleteThenGet | handlers/user.go:252-301 | a delete succeeds exactly when the row existed, and a read of that id afterwards gives 404 |
| Scenarios.StrongPasswordNotBlank | utils/validation.go:12 | `Str0ng!Pass` is not blank after trimming |
| Scenarios.StrongPasswordByteLength | utils/validation.go:50 | `Str0ng!Pass` is 11 bytes long |
| Scenarios.StrongPasswordHasAllClasses | utils/validation.go:53-64 | `Str0ng!Pass` contains all four character classes |
| Scenarios.StrongPasswordPasses | utils/validation.go:48-69 | `Str0ng!Pass` is non-blank and passes the password rule |
| Scenarios.LowerCaseOnlyFails | utils/validation.go:65-67 | `password` has a valid length but gets the class error |
| Scenarios.ShortPasswordFails | utils/validation.go:50-52 | `Ab1!` has every class but gets the length error |
| Scenarios.AliceEmailAccepted | utils/validation.go:42-46 | `alice@example.com` passes the format rule |
| Scenarios.NameLengths | utils/validation.go:24-26 | `Al` fails the name rule, while `Zoë` (three runes, four bytes) passes |

## Left out

- The service entry point, configuration and routes are not part of this model. That covers the database connection, the table bootstrap, and the legacy duplicate of the service with integer ids. They hold I/O and wiring, not handler behaviour.
- SQL, JSON decoding and encoding, and path-variable extraction are modelled by their outcomes:
  - a body that fails to decode is `None`;
  - `strconv.Atoi` results are `Option<int>`;
  - query and transaction failures are boolean fault parameters.
- `HashPassword`, `CheckPasswordHash`, `uuid.New` and `time.Now` are not part of this model. They arrive as a hash function, a check predicate, a fresh identifier and an instant.
- Encoding failures after the headers are written are not modelled. This covers the get handler's 500 on an encoding error and the unchecked `Encode` calls of the other handlers.
- `http.Error` appends a newline to its message; the model keeps the message text only. Log output is not modelled.
- The database returns the listed rows in no specified order. The model takes the scan order as a parameter and requires it to list every row once.
- Concurrency is not modelled: each request runs alone. This includes the race between the duplicate-e-mail check and the insert.
- The fields `Username`, `LastLogin`, `Groups` and `Metadata` of the user record are stored by no handler, so they are not part of this model. Create and update decode them from the body and echo them in the 201/200 response; the model does not represent that echo.
- Identifiers are compared as text, as stored. UUID parsing and its textual normalisation are not modelled.
- `Validation.IsValidEmailMatchesPattern`: the `(?i)` letter class is taken as the ASCII letters plus the two runes that Unicode case folding maps onto them (U+017F and U+212A). No other regular-expression feature is needed for this pattern.
- Integers are unbounded. `Handlers.UserStore.GetAllUsers` uses the exact offset `Handlers.Offset`. The 64-bit wrap is modelled only by `Handlers.GoOffset`, which is listed under Findings. Row counts, page numbers and timestamps are not bounded.
- Timestamps are abstract integers. The model does not require `updated_at` to be later than `created_at`, because the source does not enforce it.
- Validation never changes the record it checks. In the model this holds by construction: `Validation.ValidateUserInput` is a function.
- A commit that fails after the database applied it cannot be distinguished from one that did not. The model treats every failed commit as a rollback.

## Findings

| source | as written | input that shows it | evidently intended | confidence | as-written member | corrected member |
|---|---|---|---|---|---|---|
| handlers/user.go:44 | `offset := (page - 1) * limit` on 64-bit `int`, with page and limit taken from the query without an upper bound | `page=4611686018427387905&limit=4` gives offset 0, so the first page is served again; with `limit=2` the offset is negative | the offset of page `page`, at least 0 and `(page-1)*limit` exactly, or a rejected request | high for the arithmetic, not executed | Handlers.GoOffsetWraps | Handlers.Offset |
