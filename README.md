# Question board — a Dafny model

This project models the server of a small Q&A board. Users submit short
questions, vote them up or down, and list them in one of three orders. An
administrator logs in with fixed credentials and receives a fixed token.
With that token they can delete one question or clear the board. On the
server everything is one `questions` table (id, text, votes, created_at)
with an AUTOINCREMENT id, plus the route handlers of `server.js`.

The model has these modules:

- `Wrappers` (wrappers.dfy): `Option`, `Result` and `Outcome`.
- `Errors` (errors.dfy): one error kind per distinct error message of the
  handlers, and the HTTP status each one is sent with (`Errors.StatusCode`).
- `Text` (text.dfy): the JavaScript string operations the handlers use.
  `trim` is modelled with ECMAScript's whitespace and line-terminator set,
  as stripping one whitespace character at a time from either end.
  `length` counts UTF-16 code units, so characters outside the Basic
  Multilingual Plane count twice. `toLowerCase` is modelled on ASCII only
  (see Left out).
- `Auth` (auth.dfy): `isAdmin`, which picks the candidate token from the
  `x-admin-token` or `Authorization: Bearer` header, and the login check.
  The token, username and password are an `AdminConfig` value.
- `Questions` (questions.dfy): the rows and the statements run on them.
  This covers the text validation of POST /question, `SELECT … WHERE id`,
  `UPDATE … SET votes`, `DELETE … WHERE id`, and the table invariant.
- `Ordering` (ordering.dfy): which ordering a `sort` query selects, the
  three `ORDER BY` clauses as an order on rows, and an insertion sort
  proved to return a sorted permutation of the table.
- `Board` (store.dfy): the class `QuestionStore`. Its fields are the row
  sequence, the AUTOINCREMENT counter `nextId` and a ghost set of every id
  ever issued. It has one method per route handler that reads or changes
  the table. The login route touches no table and is the function
  `Auth.Login`. Each mutating method states the whole new state and keeps
  `Valid()`:
  - ids increase along the table;
  - every row's id has been issued;
  - every issued id lies below `nextId`;
  - every stored text is non-empty, has no surrounding whitespace and is
    at most 280 long. A client method,
  `UpThenDown`, shows that an up-vote followed by a down-vote restores the
  table.

Request parsing happens outside the model. The caller passes in:

- the text;
- the id, as `Option<int>`: `None` stands for a value that `Number(...)`
  does not turn into an integer;
- the direction;
- the sort query;
- the two admin headers.

`Date.now()` is passed in as `createdAt`.

Ties in `ORDER BY`: SQL leaves the order of rows that tie on every sort key
unspecified. The model's insertion sort picks one such order. The proved
properties are the ones SQL guarantees: the result is a permutation of the
table, sorted by the mode's keys.

Consider three questions A, B and C, submitted in that order, with 3, 1 and
3 votes. The clause `ORDER BY votes DESC, created_at DESC` (server.js:30)
puts the newer C before the older A on the tie, so the top listing is
[C, A, B] (`Ordering.TopListingExample`).

## Model

| member | source | states |
|---|---|---|
| `Text.Trim` | server.js:58 | `trim` never lengthens the text, and a non-empty result neither starts nor ends with whitespace |
| `Text.TrimEmpty` | server.js:58-60 | `trim` gives the empty string exactly when the input is all whitespace (or empty) |
| `Text.TrimIsMiddle` | server.js:58 | for any split of the input into whitespace, a middle that neither starts nor ends with whitespace, and whitespace, `trim` returns exactly that middle |
| `Text.TrimIdempotent` | server.js:58 | trimming a trimmed text changes nothing |
| `Text.Utf16Length` | server.js:62 | the JavaScript length of a string is between its number of characters and twice that |
| `Text.Utf16LengthBmp` | server.js:62 | for text in the Basic Multilingual Plane, the JavaScript length is the number of characters |
| `Text.Lower` | server.js:94 | lower-casing keeps the length and maps each character on its own (A-Z to a-z) |
| `Auth.BearerToken` | server.js:100-103 | a bearer token is found only in an `Authorization` header that is exactly "Bearer " followed by that token |
| `Auth.BearerTokenOf` | server.js:101-102 | every "Bearer <t>" header yields exactly `t` |
| `Auth.Candidate` | server.js:98-104 | a non-empty `x-admin-token` is the candidate; otherwise the candidate exists exactly when the `Authorization` header starts with "Bearer ", and the header is then "Bearer " followed by it |
| `Auth.IsAdmin` | server.js:98-106 | admin exactly when the configured token is non-empty and, if `x-admin-token` is non-empty, equals it; otherwise the `Authorization` header is exactly "Bearer " followed by the token |
| `Auth.NoHeadersNotAdmin` | server.js:104-105 | a request with neither header is never admin |
| `Auth.AdminTokenHeaderPrecedes` | server.js:104 | with a non-empty `x-admin-token`, the `Authorization` header has no influence |
| `Auth.Login` | server.js:108-115 | login succeeds exactly when both username and password match exactly; then it returns the configured token, otherwise "invalid credentials" |
| `Auth.LoginTokenAuthorizes` | server.js:114 | the token login returns passes `isAdmin`, sent as `x-admin-token` or as a bearer token |
| `Questions.CheckText` | server.js:58-64 | all-whitespace text is refused as required; trimmed text longer than 280 is refused as too long; anything else is accepted as its trimmed form, which is a valid stored text |
| `Questions.ValidTextRechecks` | server.js:58-64 | a stored text is its own trimmed form and passes the check again unchanged |
| `Questions.MaxLengthAccepted` | server.js:62-64 | a trimmed text of exactly 280 BMP characters is accepted unchanged |
| `Questions.OverMaxLengthRefused` | server.js:62-64 | a trimmed text of 281 characters is refused as too long |
| `Questions.Find` | server.js:27 | the lookup by id returns a position holding that id with no earlier match, and returns nothing exactly when no row has the id |
| `Questions.FindUnique` | server.js:17 | with AUTOINCREMENT ids, the row found for a row's id is that row |
| `Questions.SetVotes` | server.js:28 | the vote update keeps the table's length, gives the new count to the rows with the id, and leaves every other row and field unchanged |
| `Questions.Delta` | server.js:79-88 | a direction is accepted exactly when it is "up" or "down"; "up" moves the count by +1 and "down" by -1 |
| `Questions.SetVotesKeepsValid` | server.js:88-89 | a vote update keeps the table invariant |
| `Questions.VoteRoundTrip` | server.js:88-89 | a vote of +d writes count+d, and a following vote of -d writes the original count back, restoring the whole table |
| `Questions.VoteKeepsPosition` | server.js:82-89 | after a vote the lookup by id still finds the voted row at the same position |
| `Questions.DeleteWhere` | server.js:39 | after delete-by-id no row carries the id; it removes nothing exactly when no row has the id, and then the table is unchanged |
| `Questions.DeleteKeepsOthers` | server.js:39 | a row survives delete-by-id exactly when it was in the table and carries another id |
| `Questions.DeleteRemovesOne` | server.js:133-137 | with AUTOINCREMENT ids, deleting an existing id removes exactly that row and keeps the others in order |
| `Questions.AppendKeepsValid` | server.js:24-26 | inserting a checked text under the next id keeps the table invariant, with that id recorded as issued and the counter advanced |
| `Questions.RemoveKeepsValid` | server.js:133 | removing one row keeps the table invariant |
| `Questions.DeleteExistingKeepsValid` | server.js:133-137 | deleting an id the table holds removes exactly the row the lookup finds, and the table invariant still holds |
| `Ordering.RequestedMode` | server.js:51-55 | the query selects newest or low exactly when its lower-cased form is "newest" or "low"; anything else, including no query, selects top |
| `Ordering.PrecedesTransitive` | server.js:29-37 | each of the three `ORDER BY` orders is transitive |
| `Ordering.PrecedesTotal` | server.js:29-37 | each of the three `ORDER BY` orders is total: of two rows, one may be listed first |
| `Ordering.InsertSorted` | server.js:29-37 | inserting into an ordered listing keeps it ordered and adds exactly one row |
| `Ordering.SortRows` | server.js:29-54 | the listing is a permutation of the table, sorted by the mode's `ORDER BY` keys |
| `Ordering.TopListingExample` | server.js:29-31 | for votes 3, 1, 3 submitted as A, B, C, the top listing is C, A, B |
| `Board.QuestionStore.constructor` | server.js:15-22 | a fresh database is empty, its counter starts at 1, and no id has been issued |
| `Board.QuestionStore.Submit` | server.js:57-70 | refused texts leave the store unchanged; an accepted one appends one row with the trimmed text, 0 votes, the given time and an id above every id ever issued; it returns that row |
| `Board.QuestionStore.Vote` | server.js:72-91 | a non-integer id, then a bad direction, then an unknown id are refused, in that order, with the store unchanged; otherwise only the target's count moves by +1 or -1, and the new count is returned |
| `Errors.StatusCode` | server.js:60-135 | every error is answered with a 4xx status: 401 exactly for bad credentials and unauthorized requests, 404 exactly for an unknown question, 400 for the rest |
| `Board.QuestionStore.List` | server.js:93-96 | the answer is a permutation of the stored rows, sorted in the order the query selects |
| `Board.QuestionStore.Clear` | server.js:117-123 | succeeds exactly for an admin request and then empties the table; the id counter is kept; otherwise it is refused as unauthorized with nothing changed |
| `Board.QuestionStore.Delete` | server.js:125-138 | checks authorization first, then the id; an absent id is "not found" with nothing changed; an existing id loses exactly its row; the counter is kept |
| `Board.UpThenDown` | server.js:88-90 | an up-vote then a down-vote on an existing question return count+1 and then the original count, and leave the table as it was |

## Left out

- HTTP plumbing is not modelled: Express routing, JSON body parsing,
  response shaping, static file serving and `app.listen` (server.js:1-13,
  140-145). `Errors.StatusCode` records only which status each error kind
  is sent with.
- SQLite itself is replaced by the row sequence and the counter:
  persistence, prepared statements and schema creation. The store starts
  empty; rows already in an existing database file at startup are not
  modelled.
- `normalizeQuestion` (server.js:41-49) only renames `created_at` to
  `createdAt`. The model uses one record for the stored row and for the
  response, so it is the identity here. Its `null` branch is never reached
  by the handlers: they pass it a row that was just inserted or one a
  SELECT returned.
- JavaScript coercions are not modelled: `Number(...)` and
  `Number.isInteger` on ids become `Option<int>`, and `String(...)`
  together with the `|| ""` defaults become plain strings. A direction that
  is not a string behaves like any string other than "up" or "down".
- Ids and vote counts are unbounded integers. SQLite's 64-bit limit
  (including AUTOINCREMENT's failure at the largest rowid) and JavaScript's
  loss of precision above 2^53 are not modelled.
- JavaScript strings can hold lone surrogates; Dafny characters are Unicode
  scalar values, so such strings are not representable.
- `Text.Lower`: folds only the ASCII letters A-Z, where `toLowerCase`
  folds all of Unicode. This does not change which listing a query
  selects. The only non-ASCII characters whose lower case contains an
  ASCII letter are U+0130 (to "i" plus a combining dot) and the Kelvin
  sign U+212A (to "k"). Neither letter occurs in "newest" or "low". So
  `Ordering.RequestedMode` picks the same mode as JavaScript for every
  string. This argument rests on the Unicode case tables, which the
  model does not contain.
- The environment-variable defaults and hard-coded credentials
  (server.js:5-9) are not modelled; the configuration is a constructor
  parameter.
- The read-modify-write race in the vote handler (server.js:83-89) is not
  modelled: the model is sequential.
- Timing-safety of the token comparison is not modelled.
- `public/app.js` (browser rendering, fetch calls, auto-refresh, the
  client-side record of up-votes) is not modelled.
