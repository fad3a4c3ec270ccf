# Employee directory search: a Dafny model

This project models the core of an HR employee-search microservice. The service answers
`GET /api/v1/employees/search?org_id=…`. It returns the employees of one organisation,
filtered and paginated. Each employee is projected onto the columns that organisation is
configured to see. Requests are throttled by a sliding-window rate limiter keyed by
organisation.

The model is functional. The limiter is a value, `RateLimit.Limiter`. Each call is a
transition to a next limiter. The employee table is a `seq<Employee>`. The store query,
the column lookup, the projection and the route are pure functions over these values.

Files, each holding one module:

- `wrappers.dfy` (`Wrappers`): `Option`, `Result`, and Python truthiness of an optional string.
- `seqs.dfy` (`Seqs`): order-preserving filtering (a list comprehension with `if`) and its laws.
- `text.dfy` (`Text`):
  - ASCII lower-casing
  - SQLite `LIKE` with `%` and `_`
  - Python `str.strip` and `split(",")[0]`
  - code-point order of strings, which is SQLite's `BINARY` collation for UTF-8 text
- `rate_limit.dfy` (`RateLimit`): `SlidingWindowRateLimiter`, `get_client_key`, `check_rate_limit`.
- `column_config.dfy` (`ColumnConfig`): the column whitelist, the per-organisation table, `get_org_columns`.
- `employee.dfy` (`EmployeeModel`): the `Employee` record, `to_dict`, and building a record from a result row.
- `schemas.dfy` (`Schemas`):
  - an insertion-ordered dictionary, the shape of a response item
  - `EmployeeSearchRequest` validation
  - `EmployeeSearchResponse`
- `sqlite_store.dfy` (`SqliteStore`): `SearchFilters` and the meaning of the two queries in `SQLiteEmployeeStore.search`.
- `seed_data.dfy` (`SeedData`): the seven seed rows and the store-level scenarios over them.
- `employee_search.dfy` (`EmployeeSearch`): `EmployeeSearchService.search` and `_project_employee`.
- `search_scenarios.dfy` (`SearchScenarios`): an end-to-end response over the seed rows.
- `employees_api.dfy` (`EmployeesApi`): the search route with its rate-limit dependency and the 429 handler.

Inputs that the running service takes from its environment are parameters here:

- The monotonic clock is the `now` argument of `RateLimit.IsAllowed`.
- The request headers and peer address are a `RateLimit.ClientRequest`.
- The table contents are the `rows` argument of the store and service functions.
- The process-wide limiter is the `Limiter` value threaded through `EmployeesApi.SearchEmployees`.

Three behaviours of the code that a reader might not expect, all kept by the model:

- A timestamp exactly at `now - window_seconds` is kept and still counts. Eviction pops only while `q[0] < cutoff` (app/middleware/rate_limit.py:31). See `RateLimit.Evict`.
- Over the seed rows, the `org_a` search for name `john` has total 2. "John Doe" and "Bob Johnson" both contain `john` (app/db/sqlite_store.py:82-88). See `SeedData.OrgANameJohn`.
- `Retry-After` on a 429 is the constant `"60"` (app/main.py:34). It is not derived from the configured window. See `RateLimit.RetryAfter` and `EmployeesApi.SearchEmployees`.

## Model

| member | source | states |
|---|---|---|
| RateLimit.NewLimiter | app/middleware/rate_limit.py:21-25 | A new limiter keeps the given maximum and window and holds no history for any key. |
| RateLimit.Evict | app/middleware/rate_limit.py:27-32 | Cleanup leaves a suffix of the history. Every popped timestamp is strictly older than the cutoff. The first kept one is at least the cutoff, so a timestamp equal to the cutoff stays. |
| RateLimit.EvictionUnique | app/middleware/rate_limit.py:29-32 | Those three facts determine the cleaned history uniquely. |
| RateLimit.EvictSortedIsWindow | app/middleware/rate_limit.py:27-32 | On an ascending history, cleanup keeps exactly the timestamps at or after the cutoff, in order. |
| RateLimit.IsAllowed | app/middleware/rate_limit.py:34-45 | One call creates the key if missing and changes no other key. An admitted call ends the key's history with `now` and stays within capacity. A denied call leaves at least `max_requests` entries. |
| RateLimit.IsAllowedSpec | app/middleware/rate_limit.py:38-45 | Admitted means the cleaned history had fewer than `max_requests` entries, and the new history is the cleaned one plus `now`. Denied means it had at least that many, and the new history is the cleaned one with nothing appended. |
| RateLimit.StepKeepsHistoryValid | app/middleware/rate_limit.py:31-45 | With a non-decreasing clock, one call keeps the key's history within capacity, ascending, and not in the future. |
| RateLimit.IsAllowedPreservesValid | app/middleware/rate_limit.py:31-45 | The same invariant holds for every key of the limiter after any call. |
| RateLimit.OtherKeyUnaffected | app/middleware/rate_limit.py:37-45 | A call on one key never changes the decision a later call on another key gets. |
| RateLimit.KeyUntouched | app/middleware/rate_limit.py:37-45 | A call on one key leaves every other key's history as it was. |
| RateLimit.FreshKeyAdmitted | app/middleware/rate_limit.py:38-45 | A key never seen before is admitted whenever `max_requests >= 1`. |
| RateLimit.AdmittedAfterWindow | app/middleware/rate_limit.py:30-45 | Once every recorded timestamp is older than the window, the key is admitted again and its history restarts as `[now]`. |
| RateLimit.StepWithinWindow | app/middleware/rate_limit.py:40-45 | When nothing is stale, the decision depends only on the count: admitted exactly when it is below the maximum. |
| RateLimit.TwoPerWindowScenario | app/middleware/rate_limit.py:34-45 | With two requests per sixty seconds, the first two calls for a key within one window are admitted and the third is denied. A different key is still admitted afterwards. |
| RateLimit.TwoThenDenied | app/middleware/rate_limit.py:40-45 | The same three-call sequence, from any limiter with an empty history for the key. |
| RateLimit.OtherKeyStillAdmitted | app/middleware/rate_limit.py:37-45 | Exhausting one key leaves a second, empty key admissible. |
| RateLimit.BurstAdmitsRemainingCapacity | app/middleware/rate_limit.py:34-45 | A burst of calls inside one window admits exactly `min(calls, capacity - recorded)`. |
| RateLimit.DefaultLimiterBurst | app/middleware/rate_limit.py:21-45 | A limiter with the constructor's defaults (100 requests, 60 seconds) admits exactly `min(calls, 100)` calls of any burst inside one window. |
| RateLimit.NoOvershootWithinWindow | app/middleware/rate_limit.py:42-45 | However many calls arrive inside one window, at most `max_requests` are admitted. |
| RateLimit.RunRecordsAdmitted | app/middleware/rate_limit.py:44-45 | After a run of calls, the recent timestamps recorded grow by exactly the number admitted, and the history stays within capacity. |
| RateLimit.StepCountsAdmission | app/middleware/rate_limit.py:40-45 | One call adds one recent timestamp when it admits and none when it denies. |
| RateLimit.EvictKeepsRecent | app/middleware/rate_limit.py:30-32 | Cleanup never removes a timestamp at or after the cutoff. |
| RateLimit.ClientAddress | app/middleware/rate_limit.py:60-61 | With a non-empty forwarded-for header, the address holds no comma, has no surrounding whitespace, and occurs in the header. Otherwise it is the peer host, or `unknown` when there is none. |
| RateLimit.GetClientKey | app/middleware/rate_limit.py:54-62 | A non-empty organisation gives `org:` + the id; otherwise `ip:` + the client address. |
| RateLimit.OrgKeysDistinct | app/middleware/rate_limit.py:58-59 | Different organisations get different keys, so they never share a budget. |
| RateLimit.OrgAndAddressKeysDistinct | app/middleware/rate_limit.py:58-62 | An organisation key never coincides with an address key. |
| RateLimit.CheckRateLimit | app/middleware/rate_limit.py:65-72 | `RateLimitExceeded` is raised exactly when `is_allowed` on the organisation's key denies. The limiter moves on either way, and only that organisation's history changes. |
| ColumnConfig.FilterAllowed | app/services/column_config.py:28 | The result keeps, in order, exactly the whitelisted names of the input. It never contains `org_id`. |
| ColumnConfig.FilterAllowedMultiplicity | app/services/column_config.py:28 | Each whitelisted name is kept as often as it occurs in the input, repeats included; every other name is dropped entirely. |
| ColumnConfig.FilterAllowedIdempotent | app/services/column_config.py:28 | Filtering twice equals filtering once. |
| ColumnConfig.ConfiguredColumnsWellFormed | app/services/column_config.py:14-18 | Every table entry is whitelisted and repeat-free. |
| ColumnConfig.GetOrgColumns | app/services/column_config.py:21-28 | Every returned column is whitelisted, there are no repeats, and `org_id` is absent. The result is a subsequence of the configured list, and because each entry is whitelisted it equals that entry. An unknown organisation gets the six default columns. |
| ColumnConfig.KnownOrganisationColumns | app/services/column_config.py:15-17 | `org_a` sees name, email, department, location. `org_b` sees name, department, position. An unknown organisation sees all six, in that order. |
| EmployeeModel.ToDict | app/models/employee.py:20-30 | The dictionary has exactly the seven field names, `org_id` included, and each maps to its record field. |
| EmployeeModel.FromRow | app/db/sqlite_store.py:141-153 | A result row becomes a record exactly when it has all seven columns, and the record's fields come from those columns. |
| EmployeeModel.FromRowToDict | app/models/employee.py:20-30 | Building a record from `to_dict` of a record gives that record back. |
| EmployeeModel.ToDictFromRow | app/db/sqlite_store.py:141-153 | `to_dict` of a record built from a complete row gives back the row's seven columns. |
| EmployeeModel.ToDictCoversAllowedColumns | app/models/employee.py:21-30 | Every whitelisted column is a key of `to_dict`, and `org_id` is a key too. Exclusion therefore comes from the column list alone. |
| Schemas.Put | app/services/employee_search.py:52 | Assigning into an insertion-ordered dictionary appends a new key at the end, keeps the order of an existing key, and changes no other key's value. |
| Schemas.LookupAt | app/services/employee_search.py:49-53 | In a dictionary with distinct keys, looking up the key at a position yields the value at that position. |
| Schemas.ValidateRequest | app/schemas/employee.py:9-18 | A request is accepted exactly when `org_id` is present, `limit` is absent or in 1..100, and `offset` is absent or non-negative. Defaults are 20 and 0, and filters carry over. A rejection names exactly the parameters that failed. |
| Schemas.ValidateToQuery | app/schemas/employee.py:12-18 | A request written back out as query parameters validates to itself exactly when it is valid. |
| Schemas.OrgOnlyQueryDefaults | app/schemas/employee.py:17-18 | A query naming only the organisation gets limit 20, offset 0, and no filters. |
| Schemas.MissingOrgIdRejected | app/schemas/employee.py:12 | A query without `org_id` is a validation error naming `org_id`. |
| SqliteStore.DefaultFilters | app/db/sqlite_store.py:16-25 | Filters built from an organisation alone have limit 20, offset 0, and no criteria. |
| SqliteStore.Matching | app/db/sqlite_store.py:107-127 | The counted rows are exactly the rows that satisfy the `WHERE` clause. |
| SqliteStore.MatchesAsSubstring | app/db/sqlite_store.py:107-121 | For a name without `%` or `_`, a row matches exactly when its organisation is the filter's and, when the name filter is non-empty, its lower-cased name contains the lower-cased filter. Each non-empty department, location or position must also be equal; empty ones impose nothing. |
| SqliteStore.Window | app/db/sqlite_store.py:136-138 | `LIMIT`/`OFFSET` give the run of entries starting at the offset (a negative offset reads as 0), empty when the offset is past the end. Its length is `limit` or whatever remains after the offset, whichever is smaller; a negative `limit` means no limit. |
| SqliteStore.AdjacentPages | app/db/sqlite_store.py:136-138 | Two consecutive pages concatenate to the page of their combined size. |
| SqliteStore.Search | app/db/sqlite_store.py:102-155 | Every returned record is a stored row of the filter's organisation that satisfies the clause. `total` is the number of matching rows. The page has at most `limit` records and at most `total`, is empty when `offset >= total`, and is ascending by id when ids are unique. |
| SqliteStore.SortById | app/db/sqlite_store.py:135 | Ordering by id is a permutation of the matches. |
| SqliteStore.SortByIdSorted | app/db/sqlite_store.py:135 | With unique ids (the primary key), ordering by id yields a strictly ascending sequence. |
| SqliteStore.SortedArrangementUnique | app/db/sqlite_store.py:135 | Two strictly id-ascending arrangements of the same rows are equal, so the order is deterministic. |
| SqliteStore.TotalIgnoresPaging | app/db/sqlite_store.py:123-127 | `total` does not depend on `limit` or `offset`. |
| SqliteStore.PageIsSortedWindow | app/db/sqlite_store.py:129-140 | The page is the id-ascending arrangement of the matches, sliced at `offset` for `limit` entries. |
| SqliteStore.SearchIgnoresRowOrder | app/db/sqlite_store.py:129-140 | The result does not depend on the order the rows are stored in. |
| SqliteStore.SearchIgnoresOtherOrganisations | app/db/sqlite_store.py:107-108 | Removing every row of other organisations leaves the result unchanged. |
| SeedData.OrgANameJohn | app/db/sqlite_store.py:82-88 | In `org_a`, the name filter `john` matches John Doe and Bob Johnson, so total is 2 and the page is e1, e3. |
| SeedData.OrgBDepartmentEngineering | app/db/sqlite_store.py:82-88 | In `org_b`, department `Engineering` gives e5 and e7, total 2. |
| SeedData.UnknownOrgSeesNothing | app/db/sqlite_store.py:82-88 | An organisation with no seed rows gets total 0 and an empty page, whatever the other filters. |
| SeedData.JohnPatternIsSubstring | app/db/sqlite_store.py:110-112 | The pattern `%john%` matches a lower-cased name exactly when it contains `john`. |
| EmployeeSearch.ProjectColumns | app/services/employee_search.py:49-53 | After the loop, a key is present exactly when it is a visited column found in the dictionary, and it holds that entry. Keys never repeat. |
| EmployeeSearch.ProjectEmployee | app/services/employee_search.py:42-53 | The projection holds a key exactly when it is one of the columns and a field name, with the record's value. It never holds a key outside the columns. |
| EmployeeSearch.ProjectKeysInColumnOrder | app/services/employee_search.py:48-53 | With distinct columns, the item's keys are the columns present in the dictionary, in column order. |
| EmployeeSearch.ProjectOntoOrgColumns | app/services/employee_search.py:47-53 | Projecting onto an organisation's columns gives exactly those columns in configured order. Each holds the record's field and `org_id` never appears. |
| EmployeeSearch.FiltersFor | app/services/employee_search.py:22-30 | The store filters copy every request field, so the same organisation scopes the query and the column lookup. |
| EmployeeSearch.ProjectAll | app/services/employee_search.py:33 | Items map one-to-one onto the page, same length and order. |
| EmployeeSearch.Search | app/services/employee_search.py:15-39 | The response echoes limit and offset and carries the store's total. Its items are the page projected onto the organisation's columns, at most `limit` and at most `total`, and none when `offset >= total`. Each item comes from a row of the requesting organisation. |
| EmployeeSearch.SearchItemsShape | app/services/employee_search.py:31-33 | Every item has exactly the organisation's columns, never `org_id`, and holds the fields of one of that organisation's rows. |
| EmployeeSearch.SearchIgnoresOtherOrganisations | app/services/employee_search.py:22-33 | The response for an organisation is the same whatever rows other organisations hold. |
| SearchScenarios.OrgAProjection | app/services/employee_search.py:42-53 | An `org_a` item is name, email, department, location, in that order. |
| SearchScenarios.OrgAJohnResponse | app/services/employee_search.py:15-39 | Over the seed rows, `org_a` with name `john` returns total 2, limit 20, offset 0, and the items of John Doe and Bob Johnson with the four `org_a` columns. |
| EmployeesApi.SearchEmployees | app/api/v1/employees.py:13-58 | A request without `org_id` is a validation error that leaves the limiter untouched. Otherwise the limiter is consulted first, and a denial is a 429 with the fixed detail and `Retry-After: 60`. An admitted request with a bad limit or offset is a validation error. An admitted valid request is answered with the service's search. |
| EmployeesApi.AnsweredOnlyWhenAdmitted | app/api/v1/employees.py:13-58 | A search is answered only when the limiter admitted the request and recorded it. The answer has at most `limit` ≤ 100 items. |
| EmployeesApi.SearchEmployeesPreservesValid | app/middleware/rate_limit.py:31-45 | Serving any request keeps the limiter invariant. |
| EmployeesApi.OrganisationsIsolated | app/middleware/rate_limit.py:37-59 | A request for one organisation never changes another organisation's history. |
| EmployeesApi.OrgOnlySearch | app/api/v1/employees.py:13-58 | A query naming only the organisation is served exactly when the limiter admits the organisation's key, and otherwise gets the 429 answer. |
| EmployeesApi.ThirdSearchInWindowRefused | app/main.py:29-35 | With two requests per sixty seconds, the third search for an organisation in one window gets 429 with `Retry-After: 60`, while another organisation is still served. |
| Text.LikeContains | app/db/sqlite_store.py:110-112 | For a pattern text without wildcards, `LIKE '%q%'` holds exactly when the lower-cased text contains the lower-cased `q`. |
| Text.Strip | app/middleware/rate_limit.py:61 | `strip()` yields the text between the leading and trailing whitespace, neither end of which is whitespace. |
| Text.BeforeFirst | app/middleware/rate_limit.py:61 | `split(",")[0]` is the longest prefix without a comma, and it ends at the first comma when there is one. |
| Seqs.Filter | app/services/column_config.py:28 | A list comprehension with `if` keeps exactly the satisfying elements, as a subsequence of the input. |
| Seqs.FilterNarrowing | app/services/column_config.py:28 | Filtering by a stronger condition after a weaker one equals filtering by the stronger one. |
| Seqs.FilterPermutation | app/db/sqlite_store.py:107-127 | Filtering rearranged rows yields a rearrangement of the filtered rows. |

## Left out

- The SQLite plumbing is not modelled: connections, table and index creation, the seed-once check, and the `get_employee_store` singleton (app/db/sqlite_store.py:28-77, 158-170). The table is the `rows` sequence. Unique ids come from the primary key, and properties that need them take `UniqueIds(rows)` as a hypothesis.
- The `threading.Lock` and `time.monotonic` are not modelled. `IsAllowed` is one atomic step and `now` is a parameter. The clock is read before the lock is taken, so under contention timestamps could be appended out of order. That is a concurrency effect, and the limiter invariant here assumes a non-decreasing `now`.
- Timestamps are integers rather than floats. The limiter only compares timestamps and subtracts the window.
- FastAPI routing, dependency injection and JSON serialisation are modelled only as the order in which the route runs its steps. The response is a datatype rather than an HTTP message.
- `app/config.py` is not part of this model beyond its two constants, `RateLimit.ConfiguredMaxRequests` and `RateLimit.ConfiguredWindowSeconds`. The process-wide limiter is a value passed in and out. The re-exports of `app/middleware/__init__.py` are not modelled.
- The limiter never forgets idle keys. The model keeps that: the key set only grows.
- Text.LowerAscii: SQLite's built-in `LOWER` folds only ASCII letters, which is exactly `Text.LowerAscii`. Python's `str.lower()`, applied to the name filter (app/db/sqlite_store.py:112), also folds non-ASCII letters; the model folds the filter with `Text.LowerAscii` too, so for a filter with non-ASCII capitals it differs from the source.
- SqliteStore.Matches: the name filter is placed into a `LIKE` pattern without escaping. `%` and `_` in the filter are therefore modelled as wildcards, with SQLite's default ASCII-case-insensitive `LIKE`. The substring reading (`SqliteStore.MatchesAsSubstring`) is stated only for filters without wildcards.
- RateLimit.ClientAddress: for a forwarded-for header, the contract states that the address has no comma, is trimmed, and occurs in the header. It does not pin the address to the first entry. `Text.BeforeFirst` and `Text.Strip` state those two steps separately.
- EmployeesApi.SearchEmployees: when `org_id` is missing, the rejection does not touch the limiter. The route's dependency cannot resolve without `org_id`, so `check_rate_limit` never runs. A rejection for `limit` or `offset` happens after the limiter has recorded the request.
