# pvz_avito in Dafny

A model of the core of the pickup-point (PVZ) backend: the SQLite-backed store of
`internal/db`, the two request gates of `internal/middleware`, the route table of
`internal/routes/setup.go` and the handler logic of `internal/routes/routes.go`.

- **Store.** `Db.Store` is one class with the four tables of the schema
  (users, PVZs, receptions, products). Each table is a map from its primary key to
  the row, and each exported db function is a method or function of the class.
  - Inserts fail exactly where the schema's PRIMARY KEY or UNIQUE constraints
    reject them.
  - `CloseLastReception` and `DeleteLastProduct` pick, among the PVZ's in_progress
    receptions (and then among that reception's products), a row with the latest
    timestamp. They are proved to change exactly that row.
  - Timestamps are RFC3339 text, compared character by character as SQLite
    compares two TEXT values (module `Sql`). The date bounds of the listing are
    taken to be text as well (see "## Left out" for bounds that look like numbers).
- **Listing.** `GetPVZsFiltered` is modelled twice over:
  - its query builder (conditions, arguments, `joinConditions`, `joinStrings`, the
    offset `(page-1)*limit` in Go's wrapping 64-bit int);
  - the query's meaning: the date filter, `ORDER BY registration_date DESC`, and
    `LIMIT ? OFFSET ?` as SQLite reads negative values.

  The page/limit defaulting of `PVZ_get` goes through a model of Go's
  `strconv.Atoi` (module `Strconv`).
- **Gates and routes.**
  - The JWT gate takes the token from the `token` cookie, or else from a
    `Bearer ` Authorization header.
  - The role gate scans its allow-list for the `role` cookie.
  - The route table says which chain guards which handler. It is proved that a
    guarded handler runs exactly when the token verifies and the role is on that
    route's list.
- **Handlers.**
  - `isValidEmail` is a hand-written left-to-right recognizer, proved to accept
    exactly the strings that match the source's regular expression.
  - The city whitelist of `PVZ_post` and the e-mail check of `Register` run before
    any write, and preserve "every stored PVZ is in an allowed city" and "every
    stored e-mail is valid".

The clock and the ids derived from it are the parameters `now` and `id`. The
bcrypt hash and its comparison are the parameters `hash` and `accepts`. Token
verification is the parameter `verify`. Token signing is not modelled.

In these points the code is more permissive than its data model suggests; the model follows the code:
- A PVZ may have several in_progress receptions at once: `Receptions` does not check for an open one (`ReceptionTable.InsertAddsOpen`).
- Ties between equal timestamps are broken arbitrarily, since SQLite's ORDER BY leaves their order open: the model picks any newest row and names it in a ghost out-parameter.
- A page below 1 is not rejected: the offset is `(page-1)*limit` wrapped to 64 bits, which is negative whenever the wrapped product is (without wrap-around, exactly when limit > 0); SQLite reads a negative offset as 0.
- `DummyLogin` ignores the requested role and sets the role `dummy`, which no guarded route admits (`Routes.DummyRoleAdmittedNowhere`).
- The closed status is the literal `close`.

## Model

| member | source | states |
|---|---|---|
| GoInt.Wrap | internal/db/pvz.go:78 | the result is the Int64 congruent to the mathematical value modulo 2^64, and equals it when it is in range |
| Sql.TextLessEqReflexive | internal/db/pvz.go:63-70 | text comparison of timestamps is reflexive |
| Sql.TextLessEqTotal | internal/db/reception.go:26-28 | any two timestamps are comparable, so ORDER BY is defined on every pair |
| Sql.TextLessEqTransitive | internal/db/reception.go:26-28 | text comparison is transitive |
| Sql.TextLessEqAntisymmetric | internal/db/reception.go:26-28 | two timestamps that compare both ways are equal |
| Sql.NewestExists | internal/db/reception.go:58-66 | a non-empty selection has a row no other selected row is later than, so `ORDER BY ... DESC LIMIT 1` returns a row |
| Sql.OrderByDesc | internal/db/reception.go:25-28 | ORDER BY DESC returns every selected row exactly once, with distinct keys, in non-increasing time order |
| Sql.Window | internal/db/pvz.go:79-80 | LIMIT/OFFSET yields the rows from the offset (a negative offset counting as 0), at most `limit` of them (no bound for a negative limit), in order |
| Sql.WindowKeepsOrder | internal/db/pvz.go:79-80 | a window of rows ordered newest first is ordered newest first |
| Sql.WindowExtendsPrefix | internal/db/pvz.go:78-80 | the rows before an offset followed by the window at that offset are the first offset+limit rows |
| Sql.PagesArePrefix | internal/db/pvz.go:78-80 | pages 1..n with offset (page-1)*limit concatenate to the first n*limit rows: no row is skipped or repeated |
| PvzTable.EmptyBoundsMatchAll | internal/db/pvz.go:63-70 | with both bounds empty no condition is added and every PVZ matches |
| PvzTable.Offset | internal/db/pvz.go:78 | definition of the offset; see PvzTable.OffsetOfPage and PvzTable.HugePageWrapsToFirstPage |
| PvzTable.OffsetOfPage | internal/db/pvz.go:78 | for page, limit >= 1 without overflow the offset is (page-1)*limit |
| PvzTable.HugePageWrapsToFirstPage | internal/db/pvz.go:78 | page 2^62+1 with limit 4 wraps to offset 0, the first page |
| PvzTable.WindowOfFiltered | internal/db/pvz.go:73-80 | every row of a window of filtered rows is a stored PVZ inside both bounds |
| PvzTable.PageSlice | internal/db/pvz.go:78-80 | a page has at most `limit` rows and is empty once (page-1)*limit reaches the end |
| PvzTable.PageWindow | internal/db/pvz.go:78-80 | for a plain page, LIMIT/OFFSET selects exactly rows (page-1)*limit up to page*limit |
| PvzTable.JoinStrings | internal/db/pvz.go:119-128 | the loop's result is the items joined with the separator, left to right, "" for no items |
| PvzTable.JoinedOccurrences | internal/db/pvz.go:119-128 | joining with a separator that lacks a character adds no occurrence of it |
| PvzTable.JoinedLength | internal/db/pvz.go:119-128 | the join is as long as all items plus one separator between each two |
| PvzTable.JoinConditions | internal/db/pvz.go:114-116 | the result is the joined conditions between a '(' and a ')' |
| PvzTable.JoinConditionsPlaceholders | internal/db/pvz.go:59-75 | the WHERE clause carries exactly the '?' placeholders of its conditions |
| PvzTable.FilterQueryWhere | internal/db/pvz.go:73-75 | the query has a WHERE clause exactly when there are conditions |
| PvzTable.BuildFilterQuery | internal/db/pvz.go:55-80 | one condition per non-empty bound, start before end; argument i is condition i's bound; limit and the wrapped offset come last; WHERE present iff some bound is non-empty |
| ReceptionTable.CloseRemovesFromOpen | internal/db/reception.go:58-75 | closing an open reception of a PVZ removes exactly it from the PVZ's open set, which shrinks by one |
| ReceptionTable.CloseKeepsOtherPvzs | internal/db/reception.go:71-75 | closing a reception leaves every other PVZ's open receptions unchanged |
| ReceptionTable.CloseOfOnlyOpen | internal/db/reception.go:57-81 | closing the only open reception leaves none, so a second close fails |
| ReceptionTable.CloseIsOneWay | internal/db/reception.go:71-75 | the update changes only the status, to 'close', keeps every row and reopens nothing |
| ReceptionTable.InsertAddsOpen | internal/db/reception.go:12-21 | an in_progress insert adds one open reception even when one is already open |
| ReceptionTable.InsertNeverReopens | internal/db/reception.go:12-21 | an insert turns no existing row back to in_progress |
| ReceptionTable.NeverReopensTransitive | internal/db/reception.go:57-81 | "nothing reopens" composes across any sequence of store operations |
| ProductTable.DeleteRemovesOne | internal/db/product.go:93-99 | deleting a product of a reception removes exactly it, and the count drops by one |
| ProductTable.DeleteKeepsOtherReceptions | internal/db/product.go:93-99 | deleting a product leaves every other reception's products unchanged |
| ProductTable.LifoRunDrains | internal/db/product.go:61-101 | N successive newest-first deletions on a reception of N products remove N distinct products, each no newer than the one before, and empty it |
| ProductTable.LifoRunExtend | internal/db/product.go:78-99 | a run of deletions extends by deleting a newest product still present |
| ProductTable.LifoRunExists | internal/db/product.go:78-90 | such a run of N successful deletions always exists |
| UserTable.ByEmail | internal/db/user.go:45-52 | the lookup finds a row exactly when the e-mail is taken, and the row found has that e-mail |
| UserTable.InsertKeepsConstraints | internal/db/db.go:24-30 | an insert that passes both checks keeps ids as keys and e-mails unique |
| UserTable.InsertThenByEmail | internal/db/user.go:11-23 | after an insert, looking up its e-mail returns the inserted row |
| UserTable.InsertKeepsOtherEmails | internal/db/user.go:17-18 | an insert leaves the lookup of every other e-mail unchanged |
| Db.Store.constructor | internal/db/db.go:12-64 | a fresh database has four empty tables satisfying the key constraints |
| Db.Store.CreateReception | internal/db/reception.go:12-21 | fails iff the id is taken (then nothing changes); otherwise the row is inserted and found by id; no reception reopens |
| Db.Store.GetReceptionsByPVZ | internal/db/reception.go:24-54 | every reception of the PVZ exactly once, newest first, with an empty pvzId as the select omits the column |
| Db.Store.CloseLastReception | internal/db/reception.go:57-81 | fails with the no-active-reception error iff the PVZ has no open reception; otherwise closes a newest open one, that PVZ's open set loses exactly it, and nothing else changes |
| Db.Store.GetReceptionByID | internal/db/reception.go:84-116 | the stored row for a known id, "reception not found" otherwise |
| Db.Store.CreateProduct | internal/db/product.go:12-21 | fails iff the id is taken; otherwise the product joins its reception's set, which is not checked to exist or be open |
| Db.Store.GetProductsByReception | internal/db/product.go:24-58 | every product of the reception exactly once, newest first |
| Db.Store.DeleteLastProduct | internal/db/product.go:61-101 | no open reception: that error; reception without products: "no products ..."; otherwise deletes a newest product of a newest open reception and nothing else |
| Db.Store.DeleteLastProducts | internal/db/product.go:61-101 | n successive deletions for a PVZ with one open reception of N products: the first min(n, N) succeed and form a newest-first run of distinct products, the rest fail with "no products ...", and after N the reception is empty |
| Db.Store.CreatePVZ | internal/db/pvz.go:12-21 | fails iff the id is taken; otherwise the PVZ is stored and found by id |
| Db.Store.GetPVZByID | internal/db/pvz.go:24-51 | the stored PVZ for a known id, "PVZ not found" otherwise |
| Db.Store.GetPVZsFiltered | internal/db/pvz.go:54-111 | the matching PVZs ordered newest first; the result is their LIMIT/OFFSET window at the wrapped offset, within the bounds, at most `limit` long, and exactly the page's slice for a plain page |
| Db.Store.RunFilterQuery | internal/db/pvz.go:82-108 | the database side: every matching PVZ once, newest first, then the window |
| Db.Store.ScanPvzs | internal/db/pvz.go:89-108 | scanning copies every row, in order |
| Db.Store.CreateUser | internal/db/user.go:11-23 | succeeds iff hashing succeeds, the id is new and the e-mail is free; stores the hash, not the password; a failure names the violated constraint and changes nothing |
| Db.Store.GetUserByEmail | internal/db/user.go:45-63 | the stored user with that e-mail, or the zero user and "user not found" |
| Db.Store.CheckCredentials | internal/db/user.go:25-43 | "user not found" for an unknown e-mail; otherwise success iff the stored hash accepts the password |
| Middleware.TokenSource | internal/middleware/middleware.go:22-30 | a non-empty token cookie wins; otherwise a token exists iff the header starts with "Bearer ", and the header is that prefix followed by the token |
| Middleware.BearerRoundTrip | internal/middleware/middleware.go:24-30 | "Bearer " + t yields exactly t, whether the cookie is absent or empty |
| Middleware.OtherSchemesRejected | internal/middleware/middleware.go:25-29 | a header that does not start with "Bearer " gives no token |
| Middleware.JwtGate | internal/middleware/middleware.go:20-44 | passes iff a token exists and verifies; aborts 400 with "Token missing ..." or "Error verifying token" |
| Middleware.CookieTakesPrecedence | internal/middleware/middleware.go:22-31 | with a non-empty token cookie the header plays no part |
| Middleware.RoleGate | internal/middleware/middleware.go:46-71 | passes iff the role cookie is present and on the allow-list; aborts with "No cookies named role" or "Role is not enough" |
| Middleware.EmptyAllowListRejectsAll | internal/middleware/middleware.go:54-67 | an empty allow-list admits nobody |
| RouteSetup.Table | internal/routes/setup.go:8-44 | definition of the route table; see RouteSetup.PublicRoutesUnguarded, RouteSetup.GuardedRoutesChain and RouteSetup.AdmittedExactly |
| RouteSetup.RunChain | internal/routes/setup.go:15-18 | the handler runs iff every gate passes; an abort is the verdict of the first gate that aborts |
| RouteSetup.Find | internal/routes/setup.go:8-44 | a registration found has the requested method and path; none found means none is registered |
| RouteSetup.AllowList | internal/routes/setup.go:17-42 | employees are on every guarded route's list, moderators only on the listing's, and no other role is on any |
| RouteSetup.PublicRoutesUnguarded | internal/routes/setup.go:9-13 | exactly the three login/registration routes run no middleware, all on POST |
| RouteSetup.GuardedRoutesChain | internal/routes/setup.go:15-43 | every other route runs the JWT gate and then the role gate with its handler's list |
| RouteSetup.AdmittedExactly | internal/routes/setup.go:15-43 | a guarded handler runs iff a token exists and verifies and the role cookie names one of its roles |
| RouteSetup.TokenCheckedBeforeRole | internal/routes/setup.go:15-43 | without a token every guarded route answers "Token missing ..." whatever the role |
| RouteSetup.ResolvedRouteIsGuarded | internal/routes/setup.go:8-44 | every registered method and path is public or admits exactly the verified requests with a listed role |
| RouteSetup.LowerCaseRolesRejected | internal/routes/setup.go:15-43 | the roles "employee" and "moderator" reach no guarded handler |
| Strconv.Clamp | internal/routes/routes.go:134-135 | the nearest Int64: the value itself in range, the bound on its side outside |
| Strconv.Atoi | internal/routes/routes.go:134-135 | text that does not start with a digit after an optional sign reads as 0 |
| Strconv.ShortMalformedIsZero | internal/routes/routes.go:134-135 | a string shorter than 19 characters that is not a sign and digits reads as 0 |
| Strconv.ScanAllDigits | internal/routes/routes.go:134-135 | on digits the scan yields their value, or overflow once it passes 2^64-1 |
| Strconv.AtoiWellFormed | internal/routes/routes.go:134-135 | a sign and digits read as their signed value clamped to the Int64 range |
| Strconv.OverflowBeforeJunk | internal/routes/routes.go:134-135 | digits whose value passes 2^64-1 give the overflow result even when junk follows them |
| Strconv.ScanReachesJunk | internal/routes/routes.go:134-135 | a non-digit reached while the value still fits 2^64-1 is a syntax error, whatever follows |
| Strconv.JunkBeforeOverflowIsZero | internal/routes/routes.go:134-135 | digits that fit 2^64-1, then a non-digit, read as 0 however long the string is |
| Strconv.NatDigits | internal/routes/routes.go:134-135 | the decimal text of a number is non-empty, all digits, with no leading zero |
| Strconv.HornerAppend | internal/routes/routes.go:134-135 | appending a digit multiplies the value so far by ten and adds the digit |
| Strconv.NatDigitsValue | internal/routes/routes.go:134-135 | the decimal text of n reads back as n |
| Strconv.AtoiItoa | internal/routes/routes.go:134-135 | every Int64 written in decimal reads back as itself |
| Strconv.DefaultsRead | internal/routes/routes.go:134-135 | the defaults "1" and "10" read as 1 and 10 |
| Routes.LocalRun | internal/routes/routes.go:69 | the longest prefix of local-part characters: all of it matches and the next character does not |
| Routes.LetterTail | internal/routes/routes.go:69 | the longest suffix of letters: all of it matches and the character before it does not |
| Routes.HostShapeIsValid | internal/routes/routes.go:69 | host characters, '.', and two or more letters form a valid part after the '@' |
| Routes.IsValidEmail | internal/routes/routes.go:68-71 | definition of the e-mail check; see Routes.IsValidEmailMatchesRegex |
| Routes.ValidEmailMatchesRegex | internal/routes/routes.go:68-71 | every address the recognizer accepts matches the regular expression |
| Routes.RegexMatchIsValidEmail | internal/routes/routes.go:68-71 | every string the regular expression matches is accepted |
| Routes.IsValidEmailMatchesRegex | internal/routes/routes.go:68-71 | the recognizer accepts exactly the regular expression's language |
| Routes.ValidEmailHasOneAt | internal/routes/routes.go:69 | a valid address has exactly one '@', preceded by a non-empty local part |
| Routes.ValidEmailEndsInLetters | internal/routes/routes.go:69 | a valid address is at least five characters long and ends in two letters |
| Routes.ExampleAddressAccepted | tests/routes_test.go:25 | the test address test@example.com is accepted |
| Routes.NoAtRejected | internal/routes/routes.go:69 | an address without '@' is rejected |
| Routes.IsAllowedCity | internal/routes/routes.go:113-116 | definition of the city check; see Routes.AllowedCitiesExactly and Routes.PvzPost |
| Routes.AllowedCitiesExactly | internal/routes/routes.go:113-116 | the city check admits exactly Москва, Казань and Санкт-Петербург |
| Routes.PageAndLimit | internal/routes/routes.go:134-135 | definition of the page and limit reading; see Routes.PagingDefaults, Routes.UnparsableIsZero and Routes.PagingReadsNumbers |
| Routes.PagingDefaults | internal/routes/routes.go:134-135 | without page and limit keys the listing asks for page 1 of 10 |
| Routes.UnparsableIsZero | internal/routes/routes.go:134 | a page or a limit value that does not start with a digit, the empty value included, reads as 0, each independently of the other key |
| Routes.PagingReadsNumbers | internal/routes/routes.go:134-135 | page and limit written in decimal are read as themselves |
| Routes.Register | internal/routes/routes.go:43-66 | an invalid e-mail gets 400 "Invalid email" and no write; created iff the e-mail is valid and the insert succeeds; otherwise 400 with the store's error: the hash failure, or the taken id or e-mail; valid e-mails stay valid |
| Routes.Login | internal/routes/routes.go:73-102 | a token is issued iff the credentials check succeeds, to the stored user with that e-mail; the "User does not exist" branch is never reached |
| Routes.DummyRoleAdmittedNowhere | internal/routes/routes.go:25-38 | the role cookie DummyLogin sets is stopped by every guarded route |
| Routes.PvzPost | internal/routes/routes.go:104-129 | an unlisted city gets 400 "Invalid city" and no write; created iff the city is allowed and the id is new; all stored cities stay allowed |
| Routes.PvzGet | internal/routes/routes.go:131-143 | lists the window, at the page and limit read from the query, of a newest-first listing holding every PVZ within the bounds exactly once; every listed row is stored and within the bounds; page 1 of 10 by default |
| Routes.CloseLastReception | internal/routes/routes.go:145-153 | "Reception closed" iff the PVZ had an open reception; then a newest open one is closed and no other row changes; otherwise 400 and nothing changes |
| Routes.DeleteLastProduct | internal/routes/routes.go:155-163 | "Product deleted" iff the PVZ has an open reception holding a product; then a newest product of a newest open reception is deleted and nothing else; otherwise 400 with the no-active-reception or "no products ..." error, deleting nothing |
| Routes.Receptions | internal/routes/routes.go:165-185 | creates an in_progress reception iff its id is new, adding it to the PVZ's open set |
| Routes.Products | internal/routes/routes.go:187-210 | creates the product iff its id is new, without looking the reception up |

## Left out

- Time parsing: the readers run `time.Parse` on the stored text. `GetReceptionsByPVZ` and `GetReceptionByID` use the layout `2006-01-02 15:04:05 MST`, which the RFC3339 text the handlers write does not fit, so in the code they fail on such rows. The model returns the stored text and does not model these parse errors.
- Driver and SQL errors (connection failures, scan errors) and the 500 answer of `PVZ_get` for them: the model's database never fails.
- bcrypt and JWT: hashing, hash comparison and token verification are the parameters `hash`, `accepts` and `verify`. Token signing (`GenerateToken`) is not modelled: `Routes.Login` answers with the user a token would be issued for, and `DummyLogin` is represented only by the user and role it signs.
- HTTP and gin plumbing: JSON binding (the "Invalid request" answers), response bodies (`Register` echoes the plaintext password in its 201 body), cookies' lifetime and domain.
- `internal/app/app.go`, `internal/app/main.go` and `internal/logger/logger.go`: startup, configuration and logging.
- Ids and timestamps derived from the clock (`user-<unix>` and the rest) are inputs. Two requests in the same second get the same id, which the model covers as an insert whose id is taken.
- Foreign keys: the schema declares them, but the connection never enables them, so nothing checks them; the model does not either.
- Concurrency between requests: each operation is atomic in the model.
- gin's path-parameter matching: routes are looked up by their registered pattern (`Find`), not by a concrete URL.
- Multi-valued query keys: the query is a map, so the first value is the only value.
- Date bounds that look like numbers: the `DATETIME` columns have NUMERIC affinity, so SQLite converts a bound such as `2024` to an integer before comparing. Every stored TEXT date then sorts after it: `endDate=2024` selects nothing and `startDate=2024` selects everything. `PvzTable.InDateRange` compares the bound as text instead, so the model is faithful only for bounds that SQLite does not read as numbers, such as full RFC3339 timestamps.
- The order of rows with equal timestamps under ORDER BY is left open: any order SQLite may return is allowed.
- Go's separate fast path in `strconv.Atoi` for strings shorter than 19 characters is not modelled as its own code path: it gives the same results as the general scan, as `ShortMalformedIsZero` and `AtoiWellFormed` show.
- Strconv.Atoi: its own ensures states only the non-digit case. The other cases are stated by lemmas: a sign and digits read by `AtoiWellFormed`; digits that pass 2^64-1 before a non-digit by `OverflowBeforeJunk`; digits that still fit before a non-digit by `JunkBeforeOverflowIsZero`; inputs shorter than 19 characters by `ShortMalformedIsZero`.
