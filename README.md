# sage-api: the Sage 500 ERP session report, in Dafny

The service answers `GET /SageErpUsers` with the users who currently hold a
session in the Sage 500 ERP database, as application (`AppUser`) or Business
Insight (`BIUser`) users. Each row becomes a dictionary keyed by lower-cased
column names. The two `X` flags are counted. The user name loses its Windows
domain. Both timestamps are rewritten as `MM/DD/YYYY HH:MM AM|PM`. A `sort_key`
is parsed back from the rewritten last activity, and the list is sorted stably
by that key. An HTTP middleware first checks the caller's address against the
comma-separated `ALLOWED_IPS` list.

The model has these modules:

- `Wrappers`: `Option` and `Result`.
- `Text`: the Python string operations the code relies on: `find`, `split`,
  `lower`, `replace`, and decimal digits.
- `DateTimes`: `datetime` values, Python's ordering of them, and the three
  `strptime`/`strftime` formats used.
- `DatetimeFormat`: `reformat_datetime` as a function.
- `Database`: `db/db.py`, with the `DB` class, `_conn_str_` and `extract_row`.
- `SageErp`: `db/sage_erp.py`. The report is a function (`GetReport`), and the
  `SageERP` class keeps its two counters as fields.
- `Api`: `main.py`, with `is_allowed`, the middleware and the endpoint.

The second loop of `get_sage_erp_users` is specified by `Run`. `Run` is stated
for any per-dictionary rewrite, and the report uses it with `Rewrite`. The
methods of `SageERP` follow the code's statements and are proved equal to the
functions.

## Model

| member | source | states |
|---|---|---|
| Text.IndexOf | db/sage_erp.py:99 | `find`: -1 exactly when the character is absent; otherwise the position of its first occurrence |
| Text.Split | db/sage_erp.py:100 | `split`: one more piece than there are separators, and no piece holds a separator |
| Text.JoinSplit | main.py:23 | joining the pieces of a split with the separator gives the string back |
| Text.SplitJoin | main.py:23 | splitting a join of separator-free pieces gives the pieces back |
| Text.SplitMember | main.py:23-24 | a string is among the pieces exactly when it holds no separator and stands in the text between separators or the ends |
| Text.Lower | db/db.py:88 | `lower` keeps the length and lower-cases each ASCII letter, position by position |
| Text.ReplaceChar | db/sage_erp.py:110 | `replace('T', ' ')` keeps the length and changes exactly the positions that held the old character |
| Text.RemoveChar | db/sage_erp.py:110 | `replace('Z', '')` leaves no such character, adds no character, and shortens by the number of occurrences |
| Text.RemoveCharAppend | db/sage_erp.py:110 | removing a character distributes over concatenation |
| Text.RemoveCharAbsent | db/sage_erp.py:110 | removing an absent character changes nothing |
| Text.Pad2 | db/sage_erp.py:128 | the two-digit fields of `strftime` are two decimal digits whose value is the number |
| Text.Pad4 | db/sage_erp.py:128 | the year field is four decimal digits whose value is the year |
| Text.ValueAppend | db/sage_erp.py:119 | the value of digits followed by more digits shifts by the length of the second part |
| Text.Pad2Value | db/sage_erp.py:119 | two digits are exactly what `%02d` prints for their value, so the two-digit fields read back as written |
| Text.Pad4Value | db/sage_erp.py:119 | four digits are exactly what `%04d` prints for their value |
| DateTimes.DaysInMonth | db/sage_erp.py:119 | a month has 28 to 31 days, and February has 29 exactly in leap years |
| DateTimes.NotAfterTotal | db/sage_erp.py:137 | the ordering of datetimes used by `sorted` is total and antisymmetric |
| DateTimes.NotAfterTransitive | db/sage_erp.py:137 | that ordering is transitive |
| DateTimes.ParseSeconds | db/sage_erp.py:117-119 | `strptime(..., '%Y-%m-%d %H:%M:%S')` yields only valid datetimes, with no microseconds |
| DateTimes.ParseWithFraction | db/sage_erp.py:117-119 | `strptime(..., '%Y-%m-%d %H:%M:%S.%f')` yields only valid datetimes |
| DateTimes.SecondsFormatRejectsDot | db/sage_erp.py:113-123 | the seconds-only format never accepts a text holding `.`, so once `.000000` has been appended the second format cannot succeed |
| DateTimes.ParseDisplay | db/sage_erp.py:88 | `strptime(..., '%m/%d/%Y %I:%M %p')` yields valid datetimes on a whole minute |
| DateTimes.DisplayLayout | db/sage_erp.py:128 | `strftime('%m/%d/%Y %I:%M %p')` is 19 characters. It places month/day/year, a 12-hour hour from 1 to 12 and the minute, then AM exactly for hours 0 to 11 |
| DateTimes.DisplayRoundTrip | db/sage_erp.py:88 | parsing the display text of a datetime gives it back truncated to the minute |
| DatetimeFormat.DefaultFraction | db/sage_erp.py:113-114 | after the check the text holds a `.`, and no character other than `.` or `0` is added or removed |
| DatetimeFormat.Normalize | db/sage_erp.py:110-114 | the text handed to `strptime` holds no `T`, no `Z`, and a `.` |
| DatetimeFormat.ReformatReparses | db/sage_erp.py:103-130 | the output of `reformat_datetime` parses back with the display format exactly when it is not empty. It then gives the parsed input truncated to the minute |
| DatetimeFormat.ParseSecondsText | db/sage_erp.py:117-119 | `strptime(..., '%Y-%m-%d %H:%M:%S')` accepts a text only when it is the `YYYY-MM-DD HH:MM:SS` text of the datetime it returns |
| DatetimeFormat.ParseWithFractionText | db/sage_erp.py:117-119 | `strptime(..., '%Y-%m-%d %H:%M:%S.%f')` accepts a text only when it is the clock text of the datetime it returns, a `.` and one to six digits, and the microseconds are those digits padded on the right |
| DatetimeFormat.ReformatText | db/sage_erp.py:103-130 | a non-empty result comes only from a text that `T`/`Z` clean-up and the default fraction turn into `YYYY-MM-DD HH:MM:SS.f` with one to six fraction digits, and it is the display text of that datetime |
| DatetimeFormat.NormalizeIsoText | db/sage_erp.py:110-114 | replacing `T`, dropping `Z` and defaulting the fraction turn an ISO timestamp into `YYYY-MM-DD HH:MM:SS.ffffff` |
| DatetimeFormat.ParseIsoText | db/sage_erp.py:108-123 | an ISO timestamp of a valid datetime parses to that datetime. This holds with `T` or a space, with or without a fraction of up to six digits (padded to microseconds) and with or without `Z` |
| DatetimeFormat.ReformatIsoText | db/sage_erp.py:103-130 | `reformat_datetime` maps every such timestamp to the display text of its datetime |
| Database.RowMapKeys | db/db.py:82-94 | the keys of the row dictionary are exactly the lower-cased column names |
| Database.RowMapValue | db/db.py:85-90 | a column's value sits under its lower-cased name unless a later column lower-cases to the same name |
| Database.RowMapSize | db/db.py:85-90 | the dictionary never has more entries than the row has columns |
| Database.RowMapSizeDistinct | db/db.py:85-90 | with distinct lower-cased names there is one entry per column |
| Database.ServerSegment | db/db.py:60-63 | the `SERVER=` segment holds the server, followed by a backslash and the instance only when an instance is set |
| Database.ConnectionStringEnds | db/db.py:57-69 | the connection string starts with the driver segment and ends with `PORT=1433;` |
| Database.ConnectionStringSplits | db/db.py:57-69 | when no setting holds `;`, splitting the connection string at `;` gives back the six segments in order |
| Database.DB.constructor | db/db.py:42-55 | the five connection settings are kept as given |
| Database.DB.ConnStr | db/db.py:57-69 | the string built step by step is every segment, in order, each followed by `;` |
| Database.DB.ExtractRow | db/db.py:76-94 | the dictionary built column by column is the row dictionary with lower-cased keys |
| SageErp.ExtractAllKeys | db/sage_erp.py:68-75 | one dictionary per row. An unreadable row's placeholder holds only `error` and so lacks `appuser`; a fetched row's dictionary is keyed by exactly its lower-cased column names |
| SageErp.RemoveDomainStripsDomain | db/sage_erp.py:94-101 | with a backslash past the start, the name is the text after the first backslash up to the next one or the end |
| SageErp.RemoveDomainSingleBackslash | db/sage_erp.py:94-101 | with exactly one backslash, past the start, the name is everything after it |
| SageErp.RemoveDomainKeeps | db/sage_erp.py:99-101 | without a backslash, or with one in first position, the name is unchanged |
| SageErp.UpdatedFields | db/sage_erp.py:84-88 | the rewritten dictionary changes only `username`, `login_time` and `last_activty`; `sort_key` is kept apart |
| SageErp.RewriteFields | db/sage_erp.py:84-88 | the rewrite succeeds exactly when the reformatted last activity is not empty. Then the fields are the rewritten values over the old ones, and the key is the last activity to the minute |
| SageErp.ProcessableRewrites | db/sage_erp.py:79-88 | a dictionary is processable exactly when both flags are present and the rewrite succeeds |
| SageErp.RunStopsAtFailure | db/sage_erp.py:79-88 | the first exception ends the loop; counters and records stay as they were then |
| SageErp.RunExtend | db/sage_erp.py:79-88 | after a good prefix, one more dictionary is one more iteration |
| SageErp.RunSucceeds | db/sage_erp.py:79-88 | the loop gets through the list exactly when it gets through every dictionary |
| SageErp.RunRecords | db/sage_erp.py:77-88 | after a full run there is one record per dictionary, in order, and each counter is the number of its `X` flags |
| SageErp.RunFirstFailure | db/sage_erp.py:79-88 | the exception raised is that of the first dictionary the loop cannot get through |
| SageErp.InsertSorted | db/sage_erp.py:137 | inserting into a sorted list keeps it sorted |
| SageErp.InsertPermutes | db/sage_erp.py:137 | inserting adds exactly the one record |
| SageErp.InsertWithKey | db/sage_erp.py:137 | an inserted record goes ahead of the records with its own key |
| SageErp.SortUsersCorrect | db/sage_erp.py:132-137 | the sorted list is ordered by key, is a permutation, and keeps the original order among equal keys |
| SageErp.ReportSucceeds | db/sage_erp.py:68-92 | a report comes out exactly when every row's dictionary is processable |
| SageErp.ReportFailsOnBadRow | db/sage_erp.py:70-88 | an unreadable row, or one whose last activity does not reformat, fails the whole report |
| SageErp.ReportFirstFailure | db/sage_erp.py:70-88 | the exception is that of the first row that cannot be processed; for an unreadable row it is the `KeyError` on `appuser` |
| SageErp.ReportContents | db/sage_erp.py:68-92 | a report holds one rewritten record per row, and its counters count the rows' `X` flags |
| SageErp.ReportOrder | db/sage_erp.py:90-92 | the report's list is the records sorted by `sort_key`, as a stable permutation |
| SageErp.SageERP.constructor | db/sage_erp.py:11-18 | a new object starts with both counters at zero |
| SageErp.SageERP.ReformatDatetime | db/sage_erp.py:103-130 | trying the two formats in turn computes `Reformat` |
| SageErp.SageERP.RewriteUser | db/sage_erp.py:84-88 | the in-turn assignments to the dictionary compute `Rewrite` |
| SageErp.SageERP.ExtractRows | db/sage_erp.py:68-75 | the first loop computes `ExtractAll` |
| SageErp.SageERP.CountAndRewrite | db/sage_erp.py:80-88 | one iteration updates the counters and the records as one step of `Run` |
| SageErp.SageERP.GetSageErpUsers | db/sage_erp.py:20-92 | the counters end as `Run` leaves them, and the result is the sorted records or the first exception. A failed query changes nothing |
| Api.IsAllowedExactly | main.py:10-24 | a host is admitted exactly when the list is empty, or when it holds no comma and stands in the list between commas or the ends |
| Api.ListedEntriesAdmitted | main.py:20-24 | for a list of comma-free entries, the admitted hosts are exactly the entries, compared whole and without trimming |
| Api.RefusedRequestIgnoresDatabase | main.py:30-46 | a refused host gets the 400 answer whatever the database holds |
| Api.AdmittedRequestGetsEndpoint | main.py:40-46 | an admitted host gets exactly the endpoint's answer |
| Api.UsersResponseOutcome | main.py:49-68 | when every row is processable the endpoint answers 200 with the sorted list and both counters. Otherwise it answers 500 with `Unexpected Error: ` and the exception's text |
| Api.UnreadableRowResponse | main.py:63-67 | an unreadable row after good ones gives 500 with `Unexpected Error: 'appuser'` |
| Api.GetSageErpUsers | main.py:49-68 | a fresh `SageERP` answers with `UsersResponse` |
| Api.Handle | main.py:30-46 | the middleware and the endpoint together answer `HandleRequest`: the refusal for a refused host, the endpoint's answer for an admitted one |

## Left out

- The SQL query, `cursor()`, `execute` and `fetchall` (`db/sage_erp.py:24-66`). What the query returned is the parameter `fetched`. A `DBError` raised by running or fetching it is `Failure(DbError(message))`, with the message as the code formats it. Filtering on the flags happens inside the query and is not modelled.
- `DB._connection_` and `pyodbc.connect`. The `decouple` lookups in `DB.__init__` and their defaults are not modelled either: the five settings are constructor parameters.
- Column values are given as the text `str()` produces for them (`db/db.py:87`). How the driver renders a `datetime` (for example, Python omits the fraction when the microsecond is 0) belongs to the driver.
- `extract_row`'s `except DBError` branch (`db/db.py:91-93`) cannot be reached, because nothing in its loop raises `DBError`. Any exception while reading a row is `RawRow.Unreadable(reason)`, handled by the caller at `db/sage_erp.py:73-75`.
- `Text.Lower` lower-cases ASCII only; Python's `str.lower` also handles non-ASCII letters.
- `strptime` is modelled for the fixed-width forms only. Python also accepts one-digit fields, a space-padded `%d`, any run of whitespace where the format has a space, and a lower-case `am`/`pm`. The display year is always four digits, whereas C `strftime` may leave years below 1000 unpadded.
- Every `print` is left out.
- `SageERP.appusers` and `biusers` are class attributes in the code. Every request makes its own object and the model has no concurrency, so instance fields stand in for them.
- The in-place update of each dictionary inside the `users` list is modelled as a new `UserRecord` per dictionary. Aliasing between list entries is not modelled.
- FastAPI's app, routing and JSON serialisation, and `uvicorn.run` (`main.py:1-7`, `main.py:71-78`). Responses are values with a status and a body, and records keep `sort_key` as a datetime.
- `is_allowed` reads `ALLOWED_IPS` through `decouple` with a default of `''`. In the model the value is a parameter. The `UndefinedValueError` branch (`main.py:25-27`) cannot be reached when a default is given.
- `before_request` reads the request method and path and never uses them. An exception from the endpoint propagates out of the middleware; the model's endpoint returns a value instead.

## Failure paths as the code has them

- An unreadable row fails the whole report. Its placeholder (`db/sage_erp.py:75`) has no `appuser`, so line 80 raises `KeyError` and the endpoint answers 500 (`main.py:63-67`).
- A `last_activty` that does not parse fails the whole report. `reformat_datetime` returns `''` (`db/sage_erp.py:125-126`), line 87 stores it, and `strptime` of `''` at line 88 raises `ValueError`; no fallback `sort_key` exists. A `login_time` that does not parse becomes `''` (line 86) and the row is kept.
- The field is `last_activty`, the column name the query gives (`db/sage_erp.py:88`).
- `remove_domain` returns the piece between the first and the second backslash (`split('\\')[1]`, `db/sage_erp.py:100`), and returns a name that starts with a backslash unchanged (`find` gives 0, line 99).
