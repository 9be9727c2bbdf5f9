# Casino listing backend: the request handlers over an in-memory table

This project models the Express handlers of `server.js`. The handlers run a casino
ranking site on top of a PostgreSQL `casino` table and a `payment` table.
Here those tables are in-memory state: the class `Server.Database` holds the
`casino` rows as a sequence in table order, the `payment` rows, and the serial
key sequence that numbers inserts. Each handler is one sequential step on that state:

- **rank swap** (`PUT /casinos/:id/swap`). The handler looks up a casino and finds its
  nearest neighbour of the same country in the requested direction. It then trades the
  two `casino_rate` values with two sequential updates. It answers 404 when the casino
  is missing and 400 when there is no neighbour;
- **create-if-absent by name** (`POST /casinos`). It answers 200 with the existing name,
  or 201 with the inserted row;
- **update by id** (`PUT /casinos/:id`) replaces all eight columns. It answers 200, or 404 when the key is missing;
- **delete by id** (`DELETE /casinos/:id`) answers 200, or 404;
- **the three paginated listings**: `GET /casinos`, `GET /casinos/country/:country_id` and
  `GET /payments`. All three share the defaults `limit = 10`, `page = 1` and `sort = "desc"`,
  the offset `(page - 1) * limit`, the direction test `sort.toLowerCase() === "asc"` and the
  page count `ceil(total / limit)`.

The SQL each handler issues is written as a function on the table:
- `WHERE` is a filter, `Tables.Where`.
- `ORDER BY col ASC|DESC` is a sorted permutation, `Paging.SortBy`.
- `LIMIT … OFFSET …` is a run of consecutive rows, `Paging.Slice`.
- The neighbour query `ORDER BY casino_rate … LIMIT 1` is a nearest candidate, `RankSwap.FindNeighbour`.

Each state-changing handler is a method of `Server.Database`. Its `ensures` ties the
answer and the new table to a pure function of the old table (`RankSwap.SwapSpec`,
`Crud.CreateSpec`, `Crud.UpdateSpec`, `Crud.DeleteSpec`). The lemmas beside those
functions state what the handlers promise.

Modules: `Optional`, `Tables` (rows and plain queries), `Paging` (listing arithmetic),
`RankSwap`, `Crud` and `Server` (the handlers over the shared state).

## Model

| member | source | states |
|---|---|---|
| Tables.FindById | server.js:107-113 | the lookup by key finds nothing exactly when no row has the key, and otherwise returns a row of the table carrying that key |
| Tables.FindByIdUnique | server.js:107-110 | with unique keys, the lookup returns exactly the row that carries the key |
| Tables.FindByName | server.js:182-187 | the lookup by `casino_name` finds nothing exactly when no row has the name, and otherwise returns a row of the table with that name |
| Tables.Where | server.js:39 | a `WHERE` keeps each row that satisfies the condition as often as it occurs, drops every other row, and never grows the table |
| Tables.WhereAll | server.js:39 | a condition that every row satisfies returns the table unchanged |
| Tables.InCountry | server.js:39 | `WHERE country_id = $1` keeps exactly the rows of that country, with their multiplicities |
| Tables.WithoutId | server.js:326-329 | the delete leaves every row with another key, each as often as before, and no row with the key; with the key absent, the table is unchanged |
| Tables.WhereKeepsUniqueIds | server.js:326-329 | removing rows keeps the keys unique |
| Tables.WithRate | server.js:149-158 | the definition of `UPDATE casino SET casino_rate = $1 WHERE id = $2`: each row with the key gets the new rate, and every other row stays; `Tables.RateUpdateUndone` states its properties |
| Tables.RateUpdateUndone | server.js:149-158 | with unique keys, the rate update keeps the row's key and gives it the new rate, and writing the old rate back restores the whole table |
| Tables.WithInfo | server.js:279-292 | the definition of the eight-column `UPDATE … WHERE id = $6`: the row with the key gets the new columns and keeps its key, and every other row stays; `Tables.InfoUpdateUndone` states its properties |
| Tables.InfoUpdateUndone | server.js:279-292 | with unique keys, the full update gives the row with the key the new columns and keeps its key, and writing the old columns back restores the whole table |
| Tables.UniqueRowOnce | server.js:326-329 | with unique keys, each row occurs exactly once |
| Paging.Lower | server.js:34 | the definition of `toLowerCase` on ASCII: each capital becomes its small letter; `Paging.LowerIdempotent` states its properties |
| Paging.LowerIdempotent | server.js:34 | lower-casing leaves no ASCII capital, so lower-casing twice gives the same string as lower-casing once |
| Paging.OrderDirection | server.js:34 | the order is ascending exactly when `sort` is `asc` in some letter case, and descending for every other value |
| Paging.Insert | server.js:39 | placing a row into a sorted column gives a sorted column that holds one more copy of that row |
| Paging.SortBy | server.js:39 | `ORDER BY` returns the same rows, as a permutation, sorted by the key in the requested direction |
| Paging.Slice | server.js:39-40 | the definition of `LIMIT … OFFSET …`: the rows from position `offset`, at most `limit` of them, and none past the end; `Paging.SliceSplit` states its properties |
| Paging.SliceSplit | server.js:33 | a run of `a` rows followed by the next run of `b` rows is the run of `a + b` rows, so consecutive pages join up with no row lost or repeated |
| Paging.Offset | server.js:33 | the definition of the offset `(page - 1) * limit`, the rows that the earlier pages hold |
| Paging.PageQuery.Limit | server.js:31 | the definition of the `limit` query parameter, 10 when it is absent |
| Paging.PageQuery.Page | server.js:31 | the definition of the `page` query parameter, 1 when it is absent |
| Paging.PageQuery.Sort | server.js:31 | the definition of the `sort` query parameter, `"desc"` when it is absent |
| Paging.PageOf | server.js:38-41 | the definition of one listing page: `Slice` of `SortBy` at offset `Offset(page, limit)`; `Paging.PageIsOrderedPart`, `Paging.PageNonEmptyIff` and `Paging.PagesInOrder` state its properties |
| Paging.TotalPages | server.js:55 | the page count is the fewest pages of `limit` rows that hold `total` rows: `n * limit >= total` and `(n - 1) * limit < total` |
| Paging.SliceIsPart | server.js:39 | a run of rows takes each of its rows from the table |
| Paging.PageIsOrderedPart | server.js:38-41 | a page is sorted in the requested direction, holds at most `limit` rows, and draws every row from the table |
| Paging.PageNonEmptyIff | server.js:50-61 | a page has rows exactly when its number is at most the page count |
| Paging.ElementOnPage | server.js:33 | row `i` of the sorted table is row `i % limit` of page `i / limit + 1`, and that page is within the page count |
| Paging.PagesInOrder | server.js:33 | every row of an earlier page may precede every row of a later page in the requested order |
| RankSwap.FindNeighbour | server.js:121-137 | the neighbour query finds nothing exactly when no row is a candidate; a candidate has the same country, another key, and a rate at or beyond the target's. Otherwise it returns the nearest candidate: no candidate lies strictly between the target and it |
| RankSwap.IsCandidate | server.js:124-135 | the definition of the neighbour query's `WHERE`: same `country_id`, another `id`, and `casino_rate >=` the target's rate when raising or `<=` it when lowering |
| RankSwap.ScanOrder | server.js:121-137 | the definition of the neighbour query's order: `ORDER BY casino_rate ASC` when raising, `DESC` when lowering |
| RankSwap.SwapStatus.Code | server.js:111-160 | the definition of the swap's status codes: 200 on success, 404 for a missing casino, 400 when there is no neighbour |
| RankSwap.Exchange | server.js:149-158 | the definition of the two sequential updates: the target takes the neighbour's rate, then the neighbour takes the target's old rate; `RankSwap.SwapExchanges` states the effect |
| RankSwap.SwapSpec | server.js:101-165 | the swap answers not-found exactly when the key is absent, and no-neighbour exactly when the key is present and no row is a candidate; on both errors the table is unchanged |
| RankSwap.SwapExchanges | server.js:146-158 | on success the target takes the nearest neighbour's rate and the neighbour takes the target's old rate; every other row and every other column is unchanged |
| RankSwap.SwappedPositions | server.js:146-158 | with unique keys, a successful swap writes the rates of exactly two distinct rows, the target and its nearest neighbour, and leaves every other row as it was |
| RankSwap.TradeKeepsRates | server.js:149-158 | trading the rates of two rows keeps every key in place and keeps the multiset of rates |
| RankSwap.SwapPreservesRates | server.js:101-165 | a swap moves no key, and the table keeps its multiset of rates |
| RankSwap.IdsDetermineUniqueness | server.js:149-158 | a table with the same keys in the same places as a table with unique keys has unique keys too |
| RankSwap.TradeTwiceRestores | server.js:149-158 | trading the same two rows' rates twice restores the table |
| RankSwap.OnlyOldNeighbourIsNearer | server.js:121-137 | after a swap, on distinct rates, the only candidate for the way back that is as near as the old neighbour is the old neighbour |
| RankSwap.SwapRoundTrip | server.js:101-165 | when the country's rates are distinct, raising a casino and then lowering it, or the reverse, restores the table |
| RankSwap.AtEdgeCannotMove | server.js:140-144 | a casino whose rate is strictly above every compatriot's cannot be raised, and one strictly below every compatriot's cannot be lowered: the answer is 400 and the table is unchanged |
| RankSwap.TiedSwapChangesNothing | server.js:149-158 | when the nearest neighbour has the same rate, the swap answers 200 and leaves the table unchanged |
| RankSwap.RaiseExample | server.js:121-128 | raising a casino rated 5 trades with its compatriot rated 8, not with the foreign casino rated 6 |
| Crud.CreateSpec | server.js:182-210 | an existing name inserts nothing and answers with that name; otherwise exactly one row is appended, carrying the given columns and the next serial key |
| Crud.CreateResult.Code | server.js:187-210 | the definition of the create's status codes: 200 when the name exists, 201 on insert |
| Crud.CreateTwiceInsertsOnce | server.js:182-193 | a second create with the same name finds the first row and changes nothing |
| Crud.CreateKeepsIdsUnique | server.js:196-208 | an insert with a key above every key in use keeps the keys unique |
| Crud.UpdateSpec | server.js:279-297 | the update answers not-found exactly when the key is absent, and then leaves the table unchanged. Otherwise it returns the row with the new columns and replaces that row only |
| Crud.UpdateThenFind | server.js:279-294 | after an update, the lookup by that key returns the new columns |
| Crud.UpdateIdempotent | server.js:279-297 | sending the same update twice gives the answer and table of sending it once |
| Crud.DeleteSpec | server.js:326-334 | the delete answers not-found exactly when the key is absent, and then leaves the table unchanged. Otherwise no row with the key remains and every other row stays |
| Crud.DeleteRemovesExactlyOne | server.js:326-331 | with unique keys, a delete that finds its key removes exactly that one row |
| Crud.DeleteTwiceFindsNothing | server.js:326-334 | a second delete of the same key answers not-found |
| Server.Database.Valid | server.js:196-208 | the definition of the table invariant: keys are unique, as the primary key ensures, and below the next value of the serial key sequence |
| Server.ListResult.Code | server.js:50-61 | the definition of the listing status codes: 200 with a page, 404 when the page is empty |
| Server.Database.constructor | server.js:17-23 | opening the database gives the handlers the `casino` table as it stands, the payments and the key sequence; the keys must be unique and below the sequence, as the primary key and the serial column ensure |
| Server.Database.UpdateRate | server.js:149-152 | one rate update changes the table as `Tables.WithRate` describes and keeps the keys unique |
| Server.Database.Swap | server.js:101-165 | the handler, with its lookup, its neighbour query and its two sequential updates, gives the answer and the table of `RankSwap.SwapSpec`: 404 exactly when the key is absent, and 400 exactly when it is present with no candidate |
| Server.Database.Create | server.js:168-215 | the handler gives the answer and the table of `Crud.CreateSpec`: 200 exactly when the name is taken, otherwise 201. It advances the key sequence only on insert |
| Server.Database.Update | server.js:266-302 | the handler gives the answer and the table of `Crud.UpdateSpec` |
| Server.Database.Delete | server.js:323-339 | the handler gives the answer and the table of `Crud.DeleteSpec`, and keeps the keys unique |
| Server.Database.ListCasinos | server.js:218-245 | the answer is always 200. It carries the requested page of the table sorted by rate, the row count, the page number and the page count; the page has rows exactly when its number is within the page count |
| Server.Database.ListByCountry | server.js:29-66 | the answer is 404 exactly when the page number exceeds the page count of the country's rows. Otherwise it carries that page of the country's rows sorted by rate, with their count and page count |
| Server.Database.ListPayments | server.js:67-98 | the answer is 404 exactly when the page number exceeds the payments' page count. Otherwise it carries that page of the payments sorted by id, with their count and page count |

## Left out

- Express routing, the `cors` and `body-parser` middleware, and `app.listen`: these are framework plumbing.
- The `pg` connection pool and its environment configuration. The tables are in-memory state instead.
- The `catch` paths that answer 500, and `console.error`. In particular, the model has no failure between the two rate updates of the swap, where the real handler could leave only the first write applied.
- Concurrent requests: each handler is one sequential step, so the model says nothing about two overlapping swaps.
- `parseInt` on the query strings, including `NaN`. `sort.toLowerCase()` runs before the `try` of each listing (server.js:34, 71, 222), so a `sort` that is not a string, such as the array from `?sort=a&sort=b`, throws outside the handler's `catch`; in the model `sort` is always a string. `limit` and `page` are parsed naturals, and every listing requires `limit > 0` and `page >= 1`. Limit 0 and page 0 are not modelled.
- `Math.ceil` over floating point: the page count is the integer ceiling division, which agrees with it for positive limits.
- `toLowerCase` beyond ASCII. This changes nothing for the comparison with `asc`, because only the ASCII letters `A`, `S` and `C` lower-case to `a`, `s` and `c`.
- `GET /countries` and `GET /casinos/:id`: single queries with no logic beyond found or not found.
- The JSON bodies beyond the status and the data they carry. The messages and the `total` read back with `COUNT(*)` are not modelled: the count is the length of the table or of the filtered rows.
- SQL `NULL` columns and type coercion of the request body. Every column has a value of its declared type.
- Paging.SortBy: `ORDER BY` leaves the order of rows with equal rates unspecified. The model keeps table order among them, so a single page over tied rates is one of the orders the database may return for that request.
- Paging.ElementOnPage and Paging.SliceSplit hold because the model uses one order for every request. Each page is a separate query (server.js:38-41, 226-229), and PostgreSQL does not promise the same order of tied rows across different `LIMIT`/`OFFSET` values. So when rates tie, a client reading pages 1, 2, … can see a row twice or miss one. The model does not capture this.
- RankSwap.FindNeighbour: `LIMIT 1` over equally near candidates may return any of them. The model returns the earliest in table order, and its contract promises only a nearest candidate.
- RankSwap.SwapRoundTrip requires distinct rates within the country. With tied rates a swap can exchange equal values and change nothing (`RankSwap.TiedSwapChangesNothing`), so the way back need not meet the same neighbour.
- The uniqueness of the `id` key is the primary-key constraint of the schema, which is not part of this model. The class invariant `Server.Database.Valid` assumes it, together with a key sequence that is past every key in use.
- No authentication handlers exist in `server.js`, so there are none to model.
