# Click ledger with Zitadel authentication: a Dafny model

The server keeps a ledger of button clicks for users who sign in through Zitadel.
The ledger has two tables. `users` is keyed by the token's subject id and holds the
email, the name and the creation time. `clicks` holds rows `{id, user_id, clicked_at}`
with an AUTOINCREMENT id. Every API route first runs a middleware that reads the
`Authorization: Bearer <token>` header, verifies the JWT, requires a subject and works
out an email and a display name. It then calls the click service and turns the result
into an HTTP status and a JSON body.

The project has four modules, one file each:

- `common.dfy` (`Common`): `Option` (JavaScript's `undefined`/`null` or a value) and `Min`.
- `ledger.dfy` (`ClickLedger`): the two tables and the service.
  - The class `Ledger` holds `users: map<string, UserRow>`, `clicks: seq<ClickRow>`, the
    AUTOINCREMENT counter `nextId` and an abstract clock `now`.
  - The operations that write (`ensureUserExists`, `recordClick`, `deleteUserClicks`) are
    methods with `modifies` clauses. They keep the schema's constraints as the invariant `Valid`.
  - The read-only queries (count, history, global statistics, user info) are functions of
    the tables. Each SQL statement becomes a filter, count, sort or take on the sequence or map.
- `auth.dfy` (`Auth`): `authenticateZitadel` and `optionalAuth` as a pure decision.
  - Its inputs are the optional header, a verifier (token to `Verified(claims)` or `Failed`)
    and a userinfo lookup (token to an optional profile).
  - It returns a 401 rejection of one of four kinds, or `Proceed` with `req.user`.
    `Proceed` stands for the single call of `next()`.
  - `Truthy` and `Or` model JavaScript's `||` on strings: an absent value and `""` are both falsy.
- `routes.dfy` (`ClickRoutes`): the history route's `limit`, and the response of each handler.
  - The `limit` is read with `parseInt` (section 19.2.5 of ECMA-262) and then `|| 100`,
    then checked against 1..1000.
  - Each handler's response is built from the service's outcome, `Returned(value)` or `Threw(message)`.

Timestamps are readings of a natural-number clock that never goes back. Two events may
read the same value, as SQLite's second-granularity `CURRENT_TIMESTAMP` can. So:

- History is ordered by a timestamp with second granularity. Two clicks in the same second
  tie, so the order proved is non-increasing, not strictly decreasing.
- Requests are handled one at a time. The race between two concurrent first clicks of one
  user, which both try to insert the user row, is outside the model.

## Model

| member | source | states |
|---|---|---|
| `ClickLedger.Ledger.constructor` | server/config/database.js:111-132 | A fresh database has empty tables and satisfies the schema invariant. |
| `ClickLedger.InsertKeepsTablesValid` | server/config/database.js:125-132 | Inserting a click of an existing user under the next AUTOINCREMENT id, stamped now, keeps every schema constraint, and the new id is larger than every earlier id. |
| `ClickLedger.AppendKeepsOrder` | server/config/database.js:127 | A row newer than every row in the table (larger id, no earlier stamp) keeps the table in insertion order. |
| `ClickLedger.WithUser` | server/services/clickService.js:28-43 | Check-then-insert: the keys become the old keys plus the id, every existing row is kept unchanged, a new id gets the given row, and the table grows by one exactly when the id was absent. |
| `ClickLedger.WithUserIdempotent` | server/services/clickService.js:28-43 | A second ensure for the same id changes nothing, whatever email or name it carries (first writer wins). |
| `ClickLedger.Ledger.EnsureUserExists` | server/services/clickService.js:28-48 | The users table becomes `WithUser` of the old one, the user exists afterwards, and clicks, counter and clock are unchanged. |
| `ClickLedger.Ledger.InsertClick` | server/services/clickService.js:68-74 | The INSERT into clicks appends exactly one row for the user under the next AUTOINCREMENT id, stamped now, and returns that id as `lastID`. The id is larger than all earlier ids, the user's count grows by one, and every other user's clicks and the users table stay unchanged. |
| `ClickLedger.Ledger.RecordClick` | server/services/clickService.js:62-82 | Adds the user if absent, appends exactly one click for the user with an id larger than all earlier ids, and grows the user's count by exactly one. Every other user's clicks stay the same, and the receipt carries the new id, the user id and the clock reading. |
| `ClickLedger.AppendTouchesOnlyOwner` | server/services/clickService.js:68-71 | An INSERT into clicks raises its owner's count by exactly one and leaves every other user's selection unchanged. |
| `ClickLedger.CountAfterAppend` | server/services/clickService.js:91-98 | After an append, the count is one more for the row's owner and the same for everyone else. |
| `ClickLedger.ClicksOf` | server/services/clickService.js:118-121 | `WHERE user_id = u` yields only rows of the table that belong to `u`. |
| `ClickLedger.ClicksOfComplete` | server/services/clickService.js:118-121 | No row of `u` is missed by the selection. |
| `ClickLedger.CountIsSelectionSize` | server/services/clickService.js:91-98 | `COUNT(*) WHERE user_id = u` equals the number of rows the selection returns. |
| `ClickLedger.CountZeroIffNoClicks` | server/services/clickService.js:91-98 | The count is zero exactly when no row belongs to the user. |
| `ClickLedger.UserClickCount` | server/services/clickService.js:91-98 | The count never exceeds the number of rows, and equals it when every row belongs to the user. |
| `ClickLedger.UnknownUserHasNoClicks` | server/services/clickService.js:91-98 | Under the reference invariant, a user with no row has count 0 and no user info. |
| `ClickLedger.SortDesc` | server/services/clickService.js:122 | `ORDER BY … DESC` yields a permutation of its input in non-increasing key order. |
| `ClickLedger.PrefixIsTop` | server/services/clickService.js:123 | `LIMIT k` on a sorted sequence cuts off only elements ranked no higher than any kept element. |
| `ClickLedger.HistoryRows` | server/services/clickService.js:118-125 | Returns `min(limit, count(u))` rows, all of them `u`'s own and none twice, newest first. No row left out is newer than any row kept. |
| `ClickLedger.AsEntries` | server/services/clickService.js:127-131 | The `map` keeps the length, and each entry is the `{id, timestamp}` of the row in the same position. |
| `ClickLedger.ThreeOfOneUser` | server/services/clickService.js:91-98 | When all three rows belong to one user, the selection is the whole table and the count is 3. |
| `ClickLedger.NewestTwo` | server/services/clickService.js:122-123 | Two of three rows with distinct times, newest first, with no row left out newer than a row kept, are the newest and the middle one, in that order. |
| `ClickLedger.HistoryOfThree` | server/services/clickService.js:118-125 | Of three clicks of one user at increasing times, a history of 2 holds the newest row, then the middle one. |
| `ClickLedger.HistoryEntriesOfThree` | server/services/clickService.js:116-131 | The same history as `{id, timestamp}` entries: the newest click's, then the middle one's. |
| `ClickLedger.UserClickHistory` | server/services/clickService.js:116-131 | The `{id, timestamp}` list has `min(limit, count(u))` entries, each one a click of `u` in the table, with timestamps non-increasing. |
| `ClickLedger.Ranking` | server/services/clickService.js:166-173 | The LEFT JOIN grouped by user covers every user exactly once, including users with no clicks, ordered by click count, most first. |
| `ClickLedger.TopOfRanking` | server/services/clickService.js:173-174 | `LIMIT 5` on the ranking keeps it ordered, and no user left out has more clicks than a user kept. |
| `ClickLedger.TopUserIds` | server/services/clickService.js:165-175 | The top ids number min(5, number of users), are distinct users, are ordered by count, and dominate every user left out. |
| `ClickLedger.TopUserRows` | server/services/clickService.js:180-184 | Each `topUsers` entry is that user's email, name and own click count, and the order by count carries over. |
| `ClickLedger.GlobalStatsOf` | server/services/clickService.js:152-185 | `totalClicks` is the number of clicks and `totalUsers` the number of users. `topUsers` has min(5, number of users) entries in non-increasing click order, and the first has at least as many clicks as any user. |
| `ClickLedger.TopUsersAreUsers` | server/services/clickService.js:165-184 | Every `topUsers` entry is some existing user's email, name and click count. |
| `ClickLedger.LeaderHasMostClicks` | server/services/clickService.js:173 | The first ranked user has the most clicks of all users. |
| `ClickLedger.LeaderIsAUser` | server/services/clickService.js:169 | The leader's count is the click count of an existing user. |
| `ClickLedger.GlobalStatsTwoUsers` | server/services/clickService.js:152-185 | With two users having 5 and 2 clicks, the statistics give 7 clicks, 2 users and a leader with 5. |
| `ClickLedger.UserInfoOf` | server/services/clickService.js:201-221 | Null exactly when the user has no row. Otherwise the result carries the row's id, email, name and creation time, with `totalClicks` equal to the user's click count. |
| `ClickLedger.RemoveClicksOf` | server/services/clickService.js:242-245 | `DELETE … WHERE user_id = u` keeps only rows of the table that are not `u`'s, and removes exactly `count(u)` rows. |
| `ClickLedger.RemoveKeepsOthers` | server/services/clickService.js:242-245 | The delete leaves every other user's clicks exactly as they were. |
| `ClickLedger.RemoveKeepsOrder` | server/services/clickService.js:242-245 | The surviving rows stay in insertion order. |
| `ClickLedger.Ledger.DeleteUserClicks` | server/services/clickService.js:240-252 | Returns the user's previous count, which is also the number of rows removed. Afterwards the user has zero clicks, other users' clicks are unchanged, and `users` is untouched. |
| `ClickLedger.ThreeClicksScenario` | server/services/clickService.js:62-252 | Three clicks by one user, at times 0, 1 and 2, give a count of 3. A history of 2 is exactly the entries (id 3, time 2) and (id 2, time 1). The delete reports 3, and the count is then 0. |
| `Auth.AuthError.Message` | server/middleware/auth.js:120-157 | Every rejection has a non-empty message. The messages for a missing token and for a failed verification are exactly the source's texts, and no other kind uses them. |
| `Auth.MessagesDistinct` | server/middleware/auth.js:120-157 | Two rejections with the same message are of the same kind. |
| `Auth.Truthy` | server/middleware/auth.js:119 | An absent value and the empty string are falsy, and every other string is truthy. |
| `Auth.Or` | server/middleware/auth.js:166-171 | `a ‖ b` is `a` when `a` is truthy, and `b` otherwise. The result is empty only when both are. |
| `Auth.SplitOnSpace` | server/middleware/auth.js:127 | `split(' ')` yields at least one piece, no piece holds a space, and joining the pieces with single spaces gives back the header. |
| `Auth.SplitJoin` | server/middleware/auth.js:127 | Splitting undoes joining for any parts free of spaces, so the split is the unique such decomposition. |
| `Auth.BearerToken` | server/middleware/auth.js:127-135 | A token is produced only for a header that is exactly `Bearer ` followed by a token without spaces. |
| `Auth.BearerTokenAccepts` | server/middleware/auth.js:127-135 | Every `Bearer <token>` with a space-free token is accepted with that token (the converse of `BearerToken`). |
| `Auth.LowerCaseSchemeRejected` | server/middleware/auth.js:128 | `bearer x` is refused. |
| `Auth.DoubleSpaceRejected` | server/middleware/auth.js:128 | `Bearer  x` (two spaces) is refused. |
| `Auth.SchemeAloneRejected` | server/middleware/auth.js:128 | `Bearer` alone is refused. |
| `Auth.EmptyTokenAccepted` | server/middleware/auth.js:127-135 | `Bearer ` passes the empty token on. |
| `Auth.ResolveEmail` | server/middleware/auth.js:163-172 | With a profile, the email is `email ‖ preferred_username ‖ "user-" + sub`. Without one, it is the payload's `email ‖ preferred_username ‖ username ‖ "user-" + sub`. Absent and empty values are skipped, and the result is never empty. |
| `Auth.ResolveName` | server/middleware/auth.js:163-172 | The name is `name ‖ given_name ‖ preferred_username ‖ "User"`, taken from the profile if there is one and otherwise from the payload. Absent and empty values are skipped, and the result is never empty. |
| `Auth.EmptyProfileIgnoresToken` | server/middleware/auth.js:164-167 | A profile that is present but empty gives the placeholders. The token's claims are not consulted. |
| `Auth.EmptyStringIsAbsent` | server/middleware/auth.js:166-171 | An empty string and an absent value give the same email and name. |
| `Auth.Authenticate` | server/middleware/auth.js:114-186 | It proceeds exactly when the header is truthy, is `Bearer <token>`, the verifier accepts the token and the payload's `sub` is truthy. On success the identity's id is `sub`, its payload is the verified one, and its email and name are non-empty. |
| `Auth.MissingHeaderRejected` | server/middleware/auth.js:117-124 | An absent or empty header gives `MissingToken`, whatever the verifier and userinfo would say. |
| `Auth.MalformedHeaderRejected` | server/middleware/auth.js:127-133 | A header not of the `Bearer <token>` form gives `MalformedHeader`, without consulting the verifier. |
| `Auth.VerifierFailureRejected` | server/middleware/auth.js:138-147 | Any verifier failure gives the single `InvalidToken` 401, whatever userinfo would say. |
| `Auth.MissingSubjectRejected` | server/middleware/auth.js:150-158 | A verified payload whose `sub` is absent or empty gives `MissingSubject`, and no profile is used. |
| `Auth.AcceptedIdentity` | server/middleware/auth.js:160-186 | A well-formed header with a verified token that has a subject yields exactly one identity: that subject, with the resolved email and name. |
| `Auth.OptionalAuth` | server/middleware/auth.js:206-215 | No header gives a null user and continues. Any header is handled exactly as by `Authenticate`, so `optionalAuth` never gives `MissingToken`. |
| `ClickRoutes.TrimStart` | server/routes/clicks.js:90 | `parseInt` skips exactly the leading white space: the result is a suffix, everything dropped is white space, and what remains does not start with it. |
| `ClickRoutes.LeadingDigits` | server/routes/clicks.js:90 | `parseInt` reads the longest prefix of digits of the radix. |
| `ClickRoutes.ParseInt` | server/routes/clicks.js:90 | Text made only of white space is NaN. A negative result comes only from text whose first non-space character is a minus. |
| `ClickRoutes.ParseTrimmed` | server/routes/clicks.js:90 | Empty text, or text starting with anything but a sign or a digit, is NaN. After a minus the number is at most 0, and otherwise it is at least 0. |
| `ClickRoutes.ParseUnsigned` | server/routes/clicks.js:90 | The result is never negative. It is NaN unless the text starts with a digit, and a number whenever it starts with a digit and is not a `0x` prefix. |
| `ClickRoutes.MinusNegates` | server/routes/clicks.js:90 | A minus in front of text that reads as a number gives its negation. |
| `ClickRoutes.MinusBeforeNumber` | server/routes/clicks.js:90 | Any text that reads as an unsigned number reads, behind a minus, as its negation. |
| `ClickRoutes.DigitFirst` | server/routes/clicks.js:90 | Text starting with a digit reads as the unsigned number it starts with. |
| `ClickRoutes.ParsePositive` | server/routes/clicks.js:90 | A decimal numeral reads back as its value, whatever non-digit text follows. |
| `ClickRoutes.ParseNegative` | server/routes/clicks.js:90 | A decimal numeral behind a minus reads back as its negation, whatever non-digit text follows. |
| `ClickRoutes.ParseDecimal` | server/routes/clicks.js:90 | `parseInt` reads a decimal numeral back as its value, with or without a minus, whatever non-digit text follows. |
| `ClickRoutes.ParseNumeral` | server/routes/clicks.js:90 | A bare numeral reads as its value, and behind a minus as its negation. |
| `ClickRoutes.ParseSkipsSpace` | server/routes/clicks.js:90 | Leading white space does not change what `parseInt` returns. |
| `ClickRoutes.ParseNonNumeric` | server/routes/clicks.js:90 | Text starting with anything other than white space, a sign or a digit is NaN. |
| `ClickRoutes.ParseIntEmpty` | server/routes/clicks.js:90 | `parseInt("")` is NaN. |
| `ClickRoutes.ParseIntWord` | server/routes/clicks.js:90 | `parseInt("abc")` is NaN. |
| `ClickRoutes.ParseIntPrefixExample` | server/routes/clicks.js:90 | `parseInt("12abc")` is 12. |
| `ClickRoutes.ParseHex` | server/routes/clicks.js:90 | `parseInt("0x1A")` is 26. |
| `ClickRoutes.NormalizedLimit` | server/routes/clicks.js:90 | An absent parameter, NaN or 0 becomes 100, and any other parsed value is kept. The result is never 0. |
| `ClickRoutes.CheckLimit` | server/routes/clicks.js:93-99 | The limit is used exactly when the normalised value lies in 1..1000, and it is then passed on unchanged. |
| `ClickRoutes.LimitOfParsed` | server/routes/clicks.js:90-99 | Once the text reads as a number, 0 gives 100, 1..1000 is passed on, and anything else is refused. |
| `ClickRoutes.LimitOfNaN` | server/routes/clicks.js:90 | Text that reads as NaN gives 100. |
| `ClickRoutes.LimitOfNumeral` | server/routes/clicks.js:90-99 | Every numeral 1..1000 is used as is, and every numeral above 1000 or negative numeral is refused. |
| `ClickRoutes.LimitDefaults` | server/routes/clicks.js:90 | An absent, empty or non-numeric limit becomes 100. |
| `ClickRoutes.ZeroLimitDefaults` | server/routes/clicks.js:90 | `"0"` becomes 100. |
| `ClickRoutes.NegativeZeroLimitDefaults` | server/routes/clicks.js:90 | `"-0"` becomes 100. |
| `ClickRoutes.ZeroParses` | server/routes/clicks.js:90 | `parseInt("0")` is 0. |
| `ClickRoutes.NegativeZeroParses` | server/routes/clicks.js:90 | `parseInt("-0")` is 0, a negative zero. |
| `ClickRoutes.NegativeLimitRefused` | server/routes/clicks.js:93-99 | `"-5"` is refused. |
| `ClickRoutes.LargeLimitRefused` | server/routes/clicks.js:93-99 | `"1001"` is refused. |
| `ClickRoutes.PostClick` | server/routes/clicks.js:26-45 | 201 with the service result under `data` exactly when the service returns, otherwise 500 with `success: false` and the thrown message. |
| `ClickRoutes.GetCount` | server/routes/clicks.js:54-75 | 200 with the caller's id and count exactly when the service returns, otherwise 500. |
| `ClickRoutes.GetHistory` | server/routes/clicks.js:87-119 | A refused limit gives 400 "Invalid limit". A valid limit is passed to the service unchanged and gives 200 with `count` equal to the length of `clicks`, or 500 if the service throws. |
| `ClickRoutes.BadLimitSkipsService` | server/routes/clicks.js:93-99 | A refused limit never reaches the service: the response does not depend on it. |
| `ClickRoutes.GetStats` | server/routes/clicks.js:130-146 | 200 with the statistics exactly when the service returns, otherwise 500. |
| `ClickRoutes.GetMe` | server/routes/clicks.js:155-181 | 404 exactly when the service returns null, 200 with the info when it returns a user, 500 when it throws. |
| `ClickRoutes.DeleteLogout` | server/routes/clicks.js:192-213 | 200 with `deletedClicks` exactly when the service returns, otherwise 500. |
| `ClickRoutes.Guarded` | server/middleware/auth.js:119-158 | A rejected request gets 401 with the middleware's body `{error: 'Unauthorized', message}`, which has no `success` member, and the handler does not run. An accepted one runs the handler with `req.user`. |
| `ClickRoutes.UnauthenticatedNeverHandled` | server/routes/clicks.js:26 | A request without a token gets 401, whatever the handler would do. |
| `ClickRoutes.HistoryFromLedger` | server/routes/clicks.js:101-110 | History served from the tables gives 200 with `count = min(limit, count(u))`. |
| `ClickRoutes.MeFromLedger` | server/routes/clicks.js:159-166 | `/me` served from the tables gives 404 exactly for a user with no row. Otherwise `totalClicks` is the user's click count. |

## Left out

- JWT verification and the key set (`verifyToken`, `createRemoteJWKSet`, server/middleware/auth.js:28-58): they are a foreign crypto library plus network access. Here they are the `verify` parameter.
- The userinfo HTTP request (server/middleware/auth.js:72-90): it is network I/O. Here it is the `fetchProfile` parameter, where `None` covers a failed request or a non-ok status.
- The 500 branch of `authenticateZitadel` (server/middleware/auth.js:188-194): nothing in the modelled inputs throws there.
- Store failures inside the service (the `catch`/`throw new Error(...)` of each `ClickService` method): the model's tables never fail. The routes take any service outcome, including `Threw`, so the 500 responses are still modelled.
- The check-then-insert race between concurrent `ensureUserExists`/`recordClick` calls: the model is sequential.
- ISO-8601 formatting of `new Date()` and `CURRENT_TIMESTAMP`: both are readings of the abstract clock `now`, so the receipt's timestamp equals `clicked_at`.
- `ClickLedger.UserClickHistory`: does not fix the order among clicks with equal timestamps, because SQLite leaves that order unspecified.
- `ClickLedger.GlobalStatsOf`: does not fix which users make the top five among equal counts, or their order, because GROUP BY order is unspecified. The listing of the `users` keys is an arbitrary choice.
- Cascade delete from `users` to `clicks` (server/config/database.js:130): no operation removes a user row.
- The default `limit = 100` of `getUserClickHistory`: the only caller always passes a limit.
- The nullable `users.name` column: names are plain strings, since the middleware always supplies a non-empty name.
- `parseInt` on a repeated query parameter (an array) and floating-point rounding of huge numerals: the model's integers are exact. Every numeral large enough to round is also above 1000 and refused either way.
- The JSON serialisation of responses, the `/health` route, Express setup, CORS and logging (server/index.js), the startup environment check, and all `console.*` output.
- The frontend under `src/`.
