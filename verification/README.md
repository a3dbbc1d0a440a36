# Diet-tracking meal API: a Dafny model

This project models the request handlers of a small HTTP backend that tracks
meals against a diet. Users register and log in with a session cookie. They
create, read, update and delete their meals. They ask for three metrics: how
many meals they have, how many are in or out of the diet, and their best
streak of in-diet meals.

The database is modelled as one object, `Store.Database`, with two fields:
the `users` table and the `meals` table, each a map from row id to row. Each
handler is a method of its route module that takes that object as its `db`
parameter. It checks its guards in the order the
source does, then reads the tables or changes exactly the rows the source
changes. Its result is `Ok(value)` or `Fail(Invalid)`. `Invalid` stands for a
request rejected by its schema. `Fail(Http(status))` is a thrown HTTP error
with its status code.

The one real algorithm is the best-sequency loop. It walks a user's meals in
date order and keeps a running `count` and the best value reached,
`bestSequency`. The count goes up by one when the current meal is in diet and
lies at most 24 h (86,400,000 ms, bound included) from the previous meal.
Otherwise it goes back to 0. `Streak.BestSequency` is that loop. It is proved
equal to the recursive specification `Streak.BestStreak`. The lemmas then
characterise `BestStreak` independently: it is the length of the longest
chain of continuing pairs. They also prove how the result behaves at a break,
for the first meal, for the time direction and at the 24 h bound.

Modules:
- `Records`: row shapes (`User`, `Meal`), `Option`, `Result`, `Failure`, the
  status codes, and the UUID and e-mail shape checks.
- `Store`: the `Database` class and its invariant `Valid()`. Every row sits
  under its own id, every meal's owner exists, and e-mails and session tokens
  are unique. It also holds the lookups by session token, e-mail and owner,
  the row scan `Scan`, and `OrderByDate` (the query's `orderBy('date')`).
- `Streak`: the best-sequency specification, the loop and the lemmas.
- `MetricRoutes`, `MealRoutes`, `UserRoutes`: one module per route file.
- `Scenario`: a client that registers a user, records three in-diet meals of
  one day and reads the metrics. Its answers are best streak 2, count 3 and
  in-diet count 3, and they follow from the handlers' contracts alone.

Where the route files and the written description of the system differ, the
model follows the code:
- `GET /meals` returns every user's meals, with no ownership filter
  (`MealRoutes.ListMeals`).
- `POST /meals` answers 404, not 401, when the session names no user.
- The update schema accepts empty strings for name and description.

## Model

| member | source | states |
|---|---|---|
| `Streak.Continues` | src/routes/metrics.routes.ts:94-101 | a pair continues when the absolute gap between the two dates is at most 86,400,000 ms and the later meal is in diet |
| `Streak.RunAt` | src/routes/metrics.routes.ts:90-106 | the running count after meal i is at most i; it is 0 at the first meal, one more than before on a continuing pair, and 0 otherwise (a reset, not a decrement) |
| `Streak.BestUpTo` | src/routes/metrics.routes.ts:90-107 | the best count after n meals is 0 for n <= 1 and below n otherwise |
| `Streak.BestStreak` | src/routes/metrics.routes.ts:88-107 | with fewer than two meals the result is 0, even for one in-diet meal; with n meals it is at most n - 1 |
| `Streak.BestSequency` | src/routes/metrics.routes.ts:88-107 | the `for` loop over `count` and `bestSequency` returns exactly `BestStreak` of its input |
| `Streak.RunAtIsLongestRun` | src/routes/metrics.routes.ts:98-106 | the running count at an index is the length of the longest chain of continuing pairs ending there, in both directions |
| `Streak.BestUpToIsMaxCount` | src/routes/metrics.routes.ts:103 | `bestSequency` after n meals is at least every running count so far and equal to one of them |
| `Streak.BestUpToMonotone` | src/routes/metrics.routes.ts:103 | `bestSequency` never decreases as more meals are processed |
| `Streak.BestStreakIsLongestRun` | src/routes/metrics.routes.ts:88-107 | reference characterisation: every chain of k continuing pairs has k <= result, and some chain has exactly the result |
| `Streak.AllContinueIsFullStreak` | src/routes/metrics.routes.ts:88-103 | if every meal after the first is in diet and within 24 h of its predecessor, the result is n - 1 |
| `Streak.BreakSplits` | src/routes/metrics.routes.ts:98-106 | at a pair that does not continue, the result is the larger of the results before and from the break; streaks never join across it |
| `Streak.SamePatternSameStreak` | src/routes/metrics.routes.ts:93-101 | the result depends only on which consecutive pairs continue |
| `Streak.FirstFlagIgnored` | src/routes/metrics.routes.ts:93-101 | changing the first meal's in-diet flag never changes the result |
| `Streak.MirrorSameStreak` | src/routes/metrics.routes.ts:94-99 | the gap is an absolute difference: negating every date leaves the result unchanged |
| `Streak.BoundaryExamples` | src/routes/metrics.routes.ts:88-101 | a lone in-diet meal gives 0; a gap of exactly 24 h continues a streak (1); 24 h plus 1 ms does not (0) |
| `Streak.WindowExample` | src/routes/metrics.routes.ts:88-107 | meals at 0 h (any flag), 1 h, 2 h and 30 h, the last three in diet, give 2 |
| `Streak.PredecessorFlagExample` | src/routes/metrics.routes.ts:98-101 | only the later meal's flag is read: in-diet, out, in-diet within hours gives 1 |
| `Store.Database.SessionUser` | src/routes/metrics.routes.ts:14-20 | the session lookup returns the one user holding the token, or nothing exactly when no user holds it |
| `Store.Database.EmailUser` | src/routes/users.routes.ts:61 | the e-mail lookup returns the one user with that address, or nothing exactly when none has it |
| `Store.Database.UserMeals` | src/routes/meals.routes.ts:206-208 | a meal is in the result exactly when it is a row of the table whose `user_id` is the user |
| `Store.Database.UserMealsInDiet` | src/routes/metrics.routes.ts:55-59 | the user's meals whose `in_diet` equals the flag, a subset of all the user's meals |
| `Store.Scan` | src/routes/meals.routes.ts:14 | a table scan lists every row exactly once (same multiset) |
| `Store.OrderByDate` | src/routes/metrics.routes.ts:81-86 | `orderBy('date')` yields the same rows (a permutation), ascending by date |
| `MetricRoutes.ParseInDiet` | src/routes/metrics.routes.ts:38-43 | the query is accepted exactly when it is the literal "true" or "false"; the flag is true exactly for "true"; anything else is a schema failure |
| `MetricRoutes.ParseInDietRoundTrip` | src/routes/metrics.routes.ts:38-43 | each flag written as its literal parses back to itself, and an accepted query is that literal |
| `MetricRoutes.CountMeals` | src/routes/metrics.routes.ts:12-30 | no session user gives 401; otherwise the number of the user's meals |
| `MetricRoutes.CountMealsByDiet` | src/routes/metrics.routes.ts:38-63 | the query is checked before the session (schema failure, then 401); the answer is the number of the user's meals with that flag, together with the flag |
| `MetricRoutes.DietCountsPartition` | src/routes/metrics.routes.ts:55-61 | the in-diet count plus the out-of-diet count equals the total count |
| `MetricRoutes.BestSequencyOfUser` | src/routes/metrics.routes.ts:71-109 | no session user gives 401; otherwise the streak of some date-ordered listing of exactly the user's meals, which is 0 or below the number of those meals |
| `Records.IsUuid` | src/routes/meals.routes.ts:24-26 | an id passes the `uuid()` check when it has the 8-4-4-4-12 hexadecimal shape |
| `Records.IsEmail` | src/routes/users.routes.ts:23 | an address passes the `email()` check when it has a non-empty local part, an '@' and a non-empty domain |
| `Records.Utf16Length` | src/routes/users.routes.ts:22 | the length `min(6)` measures: UTF-16 code units, between the number of characters and twice it, and 0 only for the empty string |
| `MealRoutes.ValidNewMeal` | src/routes/meals.routes.ts:58-63 | the create body passes its schema when name and description are non-empty |
| `MealRoutes.MealAccess` | src/routes/meals.routes.ts:24-48 | the guard order: malformed id, then 401 without a session user, then 404 for an absent meal, then 403 for another owner; when all four pass, exactly `Ok` of the stored meal, owned by the logged user |
| `MealRoutes.ListMeals` | src/routes/meals.routes.ts:10-18 | every row of the meals table, of every user, exactly once |
| `MealRoutes.GetMeal` | src/routes/meals.routes.ts:20-52 | the answer is exactly that of the guard: an error in the fixed order, or the stored meal |
| `MealRoutes.CreateMeal` | src/routes/meals.routes.ts:54-89 | an empty name or description is rejected, and no session user gives 404; both insert nothing; otherwise exactly one row is added under the fresh id, with the logged user as owner and the body's fields and flag; users are untouched and the invariant is kept |
| `MealRoutes.UpdateMeal` | src/routes/meals.routes.ts:91-147 | a failed guard writes nothing; otherwise only the row with that id changes, keeping its id and owner, taking every provided field, stamped with `updated_at` |
| `MealRoutes.DeleteMeal` | src/routes/meals.routes.ts:149-184 | a failed guard deletes nothing; otherwise exactly the row with that id is removed |
| `MealRoutes.ListUserMeals` | src/routes/meals.routes.ts:192-212 | no session user gives 401; otherwise exactly the meals whose owner is the logged user, each once |
| `UserRoutes.ValidNewUser` | src/routes/users.routes.ts:20-24 | the registration body passes when the name is non-empty, the password has at least 6 UTF-16 code units and the e-mail has the address shape |
| `UserRoutes.PasswordLengthInCodeUnits` | src/routes/users.routes.ts:22 | three characters beyond U+FFFF make a 6-unit password that passes; three ASCII characters do not |
| `UserRoutes.ValidCredentials` | src/routes/users.routes.ts:54-57 | the login body passes when the e-mail has the address shape and the password is non-empty |
| `UserRoutes.ListUsers` | src/routes/users.routes.ts:9-17 | every row of the users table, exactly once |
| `UserRoutes.Register` | src/routes/users.routes.ts:19-51 | a name, password (at least 6 UTF-16 code units) or e-mail that fails the schema is rejected; an e-mail already in use gives 409; both insert nothing; otherwise exactly one user is added whose `session_id` is the token returned for the cookie, and that token identifies the new user; e-mails stay unique |
| `UserRoutes.Login` | src/routes/users.routes.ts:53-85 | an unknown e-mail gives 404 and a wrong password 401, both changing nothing; otherwise only that user's `session_id` changes, to the fresh token the cookie carries; the new token identifies the user and the old one no longer identifies anyone |
| `Scenario.OneDayInDiet` | src/routes/metrics.routes.ts:88-107 | in-diet meals that all fall within one 24 h window give n - 1 in any date order |
| `Scenario.SameDayMeals` | src/routes/metrics.routes.ts:67-109 | register, create three in-diet meals of one day, then read best streak 2, count 3 and in-diet count 3 |

## Left out

- HTTP server, routing and cookie wiring (src/server.ts, src/app.ts): the model has no transport. A success is `Ok`, standing for the 200, 201 or 204 response. The cookie is the token a handler returns. The cookie's 7-day max-age is not modelled.
- The root route that lists `sqlite_schema` (src/app.ts): it is a database introspection dump with no logic.
- The `checkSessionIdExists` middleware and the `HttpError` class are not part of this model. Each handler gets the cookie's token as a string. A request without a cookie is not modelled.
- The HTTP status of a schema failure: a zod parse error propagates to the framework's error handler, which is not shown, so `Invalid` carries no status.
- Type errors in request bodies (a number where a string or boolean is expected): bodies are typed datatypes. Only the value checks are modelled: non-empty, a password of at least 6 UTF-16 code units, e-mail shape and UUID shape.
- The exact regular expressions of the validation library: `IsUuid` checks the 8-4-4-4-12 hexadecimal shape and not the version or variant digits. `IsEmail` requires a non-empty local part, an '@' and a non-empty domain.
- Date parsing: dates are integer milliseconds. An unparseable date string (an invalid `Date`) is not modelled.
- `randomUUID()` ids and tokens are fresh parameters, and each method requires them to be unused. `new Date()` in the update handler is the `now` parameter.
- The knex query builder and the database configuration (src/database.ts): tables are maps. Row order is unspecified (`Store.Scan` lists rows in any order). Meals with equal dates may come out of `orderBy('date')` in any order, so `MetricRoutes.BestSequencyOfUser` states its result for some date-ordered listing.
- MealRoutes.UpdateMeal: does not state what a field left out of the body becomes. The spread sets it to `undefined`, and what the query builder then writes is library behaviour outside this model; the method body keeps the old value.
- MealRoutes.DeleteMeal: the 500 answer when the delete query itself fails depends on a storage failure and is not modelled.
- Concurrency: each handler runs as one atomic step on the tables.
- Passwords are stored and compared as plain text, as in the source; hashing is not modelled.
