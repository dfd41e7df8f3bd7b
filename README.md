# NFK event counter: a Dafny model of the three API handlers

The system is a small web application with one table of events. Each event has
an `id`, a UTC creation time `created_at_utc` and a `name`. Three request handlers
work on it:

- `POST /api/nfk` (`functions/api/nfk.js`) records one event for a name.
- `GET /api/stats` (`functions/api/stats.js`) reports totals, per-name counts
  and the 50 most recent events, for all time and for a time range.
- `GET /api/timeseries` (`functions/api/timeseries.js`) reports counts per UTC
  hour or day, the five most frequent names, and a per-name series for them.

The model is split by concern:

- `RangeResolver` holds the relative-window parser and the range block. Both
  read handlers carry identical copies of this code; the model has one.
- `Http` holds the method and bearer-token gate that all three handlers share.
- `Events` holds the event table and the inclusive range filter.
- `Grouping` and `Sorting` hold generic reference definitions of
  `GROUP BY … COUNT(*)` and `ORDER BY`.
- `Stats` and `Timeseries` model the read handlers.
- `Ingest` models the write handler. The table it inserts into is the
  `EventLog` class: one sequence of events that `Append` extends by one row.

Instants are integers: milliseconds since the epoch. `toISOString` is taken to
be a monotone, injective encoding of instants. So the SQL string comparisons on
`created_at_utc` are integer comparisons, and the bucket strings produced by
`strftime` are the first instant of the UTC hour or day, `t - t % 3600000` or
`t - t % 86400000`. Three things the handlers get from outside are parameters:

- the clock `Date.now()` is `now`;
- `new Date(string)` is `parse`, where `None` is an invalid date;
- the body returned by `request.json()` is `body`, where `None` is a body that fails to parse.

The ingest handler can also throw after the gate: `String(body?.name || "")`
raises a TypeError when the name is an object with its own `toString` member,
or an array that holds one. That exception is not caught, so nothing is stored
and the runtime answers with its own error. The model has this as the verdict
`Throws` and a `None` reply.

The table is a `seq<Event>`. Its ids ascend: the store gives each new row one
more than the last id.

## Model

| member | source | states |
|---|---|---|
| RangeResolver.ParseWindowToMs | functions/api/timeseries.js:15-26 | An accepted window is positive, and its trim has the shape `<digits><m\|h\|d>`. Absent or empty input gives null. |
| RangeResolver.WindowAccepted | functions/api/timeseries.js:15-24 | Any `<digits><unit>` with a positive count, whatever whitespace surrounds it, gives the count times 60000, 3600000 or 86400000. The unit may be either case. |
| RangeResolver.WindowOnlyFromShape | functions/api/timeseries.js:16-25 | The converse: an accepted window trims to `<digits><unit>` with a positive count, and the result is count × unit. |
| RangeResolver.WindowRoundTrip | functions/api/timeseries.js:17-24 | A positive count printed in decimal, followed by a unit, parses back to count × unit. |
| RangeResolver.WindowOfDigits | functions/api/timeseries.js:17-24 | An unpadded `<digits><unit>` with a positive count gives count × unit. |
| RangeResolver.WindowZeroRejected | functions/api/timeseries.js:21 | A count of zero (`0h`, `000m`) gives null. |
| RangeResolver.UnshapedRejected | functions/api/timeseries.js:17-18 | A trimmed non-empty string without the shape gives null. |
| RangeResolver.RejectedExamples | functions/api/timeseries.js:16-18 | null for absent, `""`, `abc` and `-5m`. |
| RangeResolver.RejectedFractionAndUnit | functions/api/timeseries.js:17-18 | null for `1.5h` and `5w`. |
| RangeResolver.RejectedZeroHours | functions/api/timeseries.js:21 | null for `0h`. |
| RangeResolver.AcceptedHours | functions/api/timeseries.js:23 | `6h` gives 6 × 3600000. |
| RangeResolver.AcceptedLeadingZero | functions/api/timeseries.js:19-22 | `015m` gives 15 minutes. |
| RangeResolver.ParseShaped | functions/api/stats.js:14-25 | The copy in the statistics handler: once the trim has the shape, the result is count × unit if the count is positive, else null. |
| RangeResolver.ResolveRange | functions/api/stats.js:48-72 | Every successful range has from < to. The only failure is "Invalid from/to": no valid window, both bounds given, and not (both parse and from < to). |
| RangeResolver.WindowTakesPrecedence | functions/api/timeseries.js:57-64 | A valid window of ms gives exactly [now − ms, now], whatever `from`/`to` say. |
| RangeResolver.ExplicitRangeUsed | functions/api/timeseries.js:66-76 | With no valid window, two parsable bounds with from < to are used as parsed. |
| RangeResolver.DefaultRangeUsed | functions/api/timeseries.js:77-82 | With no valid window and a bound missing or empty, the range is [now − 86400000, now]. |
| Http.QueryGet | functions/api/stats.js:49 | `searchParams.get`: the value of the first pair with that key; none iff no pair has the key. |
| Http.Gate | functions/api/stats.js:40-44 | OPTIONS gets the preflight reply. Any other method than the allowed one gets 405 "Method not allowed". Then a missing or empty token, or a header other than `Bearer <token>`, gets 401 "Unauthorized". Only an authorized request of the allowed method passes. |
| Http.AuthorizedHeaderShape | functions/api/nfk.js:39-40 | An accepted header is exactly `"Bearer "` + token, with a non-empty token. |
| Http.Authorized | functions/api/nfk.js:39-40 | The bearer check passes only with a non-empty token and a present header, and then iff the header is `"Bearer "` + token; an absent header never passes. |
| Http.NoTokenNoAccess | functions/api/stats.js:43-44 | With the token unset or empty, no header is accepted. |
| Events.InRangeEvents | functions/api/stats.js:79-83 | `WHERE created_at_utc >= from AND <= to`: a row is kept iff from ≤ t ≤ to, both ends included. |
| Events.InRangeKeepsOrder | functions/api/stats.js:93-97 | Filtering keeps ids ascending. |
| Events.NextId | functions/api/nfk.js:52-54 | The next row id is greater than every id in the table. |
| Events.AppendKeepsOrder | functions/api/nfk.js:52-54 | Appending a row with the next id keeps ids ascending. |
| Events.InRangeAppend | functions/api/nfk.js:52-54 | An appended row that is in range becomes the last row the range filter keeps. |
| Grouping.Group | functions/api/stats.js:75-77 | `GROUP BY … COUNT(*)`: one bin per distinct key, and each bin counts that key's occurrences. |
| Grouping.GroupSums | functions/api/stats.js:74-91 | The bins' counts add up to the number of rows. There are as many bins as distinct keys. |
| Grouping.GroupOfPermutation | functions/api/stats.js:75-77 | Reordering any grouping is still a grouping of the same rows. |
| Sorting.SortBy | functions/api/stats.js:76 | `ORDER BY` under a total preorder: the rows are the same (as a multiset) and come out sorted. |
| Stats.CountDescNameAscIsTotalPreorder | functions/api/stats.js:76 | `count DESC, name ASC` under the BINARY collation is a total preorder. |
| Stats.PerName | functions/api/stats.js:75-77 | `all_time_per_name` groups the rows by name, and is ranked by count descending then name ascending. |
| Stats.RankedGroupingUnique | functions/api/stats.js:85-91 | Two ranked groupings of the same names are equal, so the per-name order is fully determined. |
| Stats.RankingExample | functions/api/stats.js:85-91 | {a:3, b:3, c:5} ranks as [c, a, b]; the orders [a, b, c] and [c, b, a] are not ranked. |
| Stats.Recent | functions/api/stats.js:93-99 | `recent` holds min(50, rows in range) rows, all of them from the table and in range. |
| Stats.RecentIsNewest | functions/api/stats.js:93-99 | Ids in `recent` strictly descend. An in-range row that is left out has a smaller id than every row listed. |
| Stats.Assemble | functions/api/stats.js:101-116 | A missing total gives 0 and a missing list gives []. Each `recent` entry is the row's name and creation time. |
| Stats.BuildStats | functions/api/stats.js:74-116 | The report holds the table size, the per-name ranking of the table, the number of in-range rows, their per-name ranking, and the `recent` rows as name and creation time. |
| Stats.StatsTotalsAgree | functions/api/stats.js:74-91 | `range_total` is at most `all_time_total`, and each per-name list's counts add up to its total. |
| Stats.StatsRecentInRange | functions/api/stats.js:93-115 | `recent` has at most 50 entries, no more than `range_total`, each created within the range. |
| Stats.HandleStats | functions/api/stats.js:37-117 | The gate first, then "Invalid from/to" (400), then the report for the resolved range, whose from < to. |
| Stats.AuthBeforeRange | functions/api/stats.js:43-63 | An unauthorized GET gets 401, even when its `from`/`to` are invalid. |
| Timeseries.ParseBucket | functions/api/timeseries.js:52-53 | An absent or empty bucket means hour. Otherwise hour iff the lowered value is "hour", day iff it is "day", and anything else is the 400. |
| Timeseries.BucketExamples | functions/api/timeseries.js:52-53 | absent and `""` give hour, `DAY` gives day, `Hour` gives hour, `week` is rejected. |
| Timeseries.BucketKey | functions/api/timeseries.js:86-92 | The key is the start of the aligned UTC hour or day that holds t: k ≤ t < k + width, and k is a multiple of the width. |
| Timeseries.BucketKeyUnique | functions/api/timeseries.js:86-92 | That aligned start is the only one, so two instants in the same hour or day share a key. |
| Timeseries.BucketKeyExample | functions/api/timeseries.js:86-92 | 2024-01-15T14:37:22Z falls in 14:00:00Z by hour and in 00:00:00Z of that day by day. |
| Timeseries.TotalQuery | functions/api/timeseries.js:91-98 | The total query groups in-range rows by bucket, in strictly ascending bucket order. |
| Timeseries.FinishTotal | functions/api/timeseries.js:130-136 | Every entry comes from a row that has a bucket, with its count, or 0 when the count is null. The result is empty iff no row has a bucket. |
| Timeseries.FinishTotalKeepsKeyed | functions/api/timeseries.js:130-136 | When every row has a bucket, all rows are kept, in order. |
| Timeseries.FinishTotalSingle | functions/api/timeseries.js:130-136 | One row is kept, with its count or 0, iff it has a bucket. |
| Timeseries.FinishTotalAppend | functions/api/timeseries.js:130-136 | The result for a concatenation is the concatenation of the results, so keyed rows keep their order wherever null rows sit. |
| Timeseries.FinishTotalDropsNull | functions/api/timeseries.js:131 | A row with a null bucket is dropped, wherever it sits in the list. |
| Timeseries.FinishTotalExample | functions/api/timeseries.js:130-136 | [(null, 3), (k, null)] gives [(k, 0)]. |
| Timeseries.TotalSeries | functions/api/timeseries.js:91-98 | The `total` series is the total query's bins, in strictly ascending bucket order. |
| Timeseries.TotalSeriesCounts | functions/api/timeseries.js:91-98 | Each entry's bucket is an aligned hour or day start, and its count is the positive number of in-range rows in that bucket. |
| Timeseries.TotalSeriesCovers | functions/api/timeseries.js:91-98 | Every in-range row's bucket is listed. There is one entry per non-empty bucket, and the counts add up to the in-range total. |
| Timeseries.TopRows | functions/api/timeseries.js:101-108 | The top-five rows: the first min(5, n) rows of the per-name ranking of the in-range rows. |
| Timeseries.TopNames | functions/api/timeseries.js:110 | `topList` is the names of the top rows, in their order. |
| Timeseries.TopNamesLength | functions/api/timeseries.js:101-110 | There are min(5, distinct in-range names) top names. |
| Timeseries.TopNamesDistinctAndCounted | functions/api/timeseries.js:101-110 | The top names are distinct names of in-range rows, each with its in-range count, and the counts do not increase. |
| Timeseries.RankedPrefix | functions/api/timeseries.js:101-108 | Any prefix of a ranked grouping lists distinct names, each with its count, counts not increasing. |
| Timeseries.RankedPrefixMaximal | functions/api/timeseries.js:101-108 | A prefix of a ranked grouping leaves out no name with a higher count than a listed one. |
| Timeseries.TopNamesAreMostFrequent | functions/api/timeseries.js:101-108 | No in-range name outside the top names has a higher count than a listed one. |
| Timeseries.TopRowsAdmissible | functions/api/timeseries.js:101-108 | The model's top rows satisfy everything `ORDER BY count DESC LIMIT 5` promises, whatever the order of tied rows. |
| Timeseries.NamedIn | functions/api/timeseries.js:122 | `name IN (…)`: a row is kept iff its name is one of the top names. |
| Timeseries.ByNameBins | functions/api/timeseries.js:116-125 | The by-name query groups the in-range rows with a top name by (name, bucket), in ascending bucket order. |
| Timeseries.ByName | functions/api/timeseries.js:113-128 | `by_name` is empty when there are no top names. Otherwise it is the by-name rows, ascending by bucket, one per (name, bucket) pair. |
| Timeseries.ByNameCounts | functions/api/timeseries.js:116-127 | Every `by_name` row has a top name, and a positive count equal to that name's in-range rows in that bucket. |
| Timeseries.ByNameCovers | functions/api/timeseries.js:116-127 | Every in-range row with a top name is counted in a `by_name` row. |
| Timeseries.BuildSeries | functions/api/timeseries.js:86-144 | The report's parts are the series above. `by_name` is empty with no top names, and otherwise names only top names. There are at most five top names. Every `total` bucket lies in (from − width, to]. |
| Timeseries.HandleSeries | functions/api/timeseries.js:40-144 | The gate first, then the bucket 400, then "Invalid from/to" (400), then the series report for the validated bucket and range, whose from < to. |
| Timeseries.BucketBeforeRange | functions/api/timeseries.js:52-76 | For an authorized GET, a given bucket that lowers to neither "hour" nor "day" gets the bucket 400, whatever `window`/`from`/`to` say. |
| Text.TrimIsSlice | functions/api/nfk.js:46 | `trim()` returns a slice of the string with only whitespace before and after it. |
| Text.TrimIsTrimmed | functions/api/nfk.js:46 | `trim()` leaves no whitespace at either end. |
| Text.TrimPadded | functions/api/nfk.js:46 | Trimming whitespace + x + whitespace, where x has no whitespace at its ends, gives x. |
| Text.TrimIdempotent | functions/api/timeseries.js:17 | Trimming twice is trimming once. |
| Text.DigitsValueZero | functions/api/timeseries.js:19-21 | `Number` of a digit string is 0 exactly when every digit is '0', so exactly those counts fail `n <= 0`. |
| Text.ToLowerAscii | functions/api/timeseries.js:20 | Lowering keeps the length, maps `A`–`Z` to `a`–`z`, keeps every other character, and leaves no upper-case ASCII letter. |
| Text.StrLeIsLexicographic | functions/api/stats.js:76 | The BINARY collation used for `name ASC`: `a` ≤ `b` iff `a` is a prefix of `b` or the first difference has the smaller character in `a`. |
| Text.Utf16Length | functions/api/nfk.js:48 | `name.length` counts UTF-16 units, between \|s\| and 2\|s\|. |
| Ingest.Lookup | functions/api/nfk.js:43-46 | The member for a key is the value of the last pair with that key, as `JSON.parse` keeps it; none iff no pair has the key. |
| Ingest.Truthy | functions/api/nfk.js:46 | `\|\|` keeps a value iff it is not one of the falsy values `null`, `false`, `0`, `""`. |
| Ingest.JsString | functions/api/nfk.js:46 | `String(v)` throws exactly when v is an object with its own `toString` member, or an array holding such a value at any depth. |
| Ingest.Join | functions/api/nfk.js:46 | An array's `join(",")` throws exactly when one of its items does. |
| Ingest.NameText | functions/api/nfk.js:46 | `String(body?.name \|\| "")` throws exactly when the `name` member is a value `String` throws on. A missing or falsy member gives "". |
| Ingest.NameOf | functions/api/nfk.js:46 | The name to store is `String(body?.name \|\| "")` trimmed, so it has no whitespace at its ends. It is none exactly where the conversion throws. |
| Ingest.CheckIngest | functions/api/nfk.js:36-48 | In order: the gate against POST; "Invalid JSON body"; the throw of `String`; "Missing name"; "Name too long" (over 80 UTF-16 units). It throws iff an authorized POST has a parsed body whose name conversion throws. A request is accepted iff it is an authorized POST with a parsed body and a name of 1 to 80 units. A refusal is never a success reply. |
| Ingest.QuoteOf | functions/api/nfk.js:57-66 | `quote` is null when there is no row or its text is empty, and is the row's text otherwise. |
| Ingest.EventLog.Append | functions/api/nfk.js:52-54 | The insert adds exactly one row at the end, with the next id, and keeps ids ascending. |
| Ingest.HandleIngest | functions/api/nfk.js:33-68 | A refusal returns its reply and leaves the table unchanged. A throw gives no reply and leaves the table unchanged. An acceptance appends exactly Event(next id, now, name) and replies with that same name and `created_at_utc` = now. |
| Ingest.GateBeforeBody | functions/api/nfk.js:36-40 | A request that is not an authorized POST is refused whatever its body, even an unparsable one: OPTIONS gets the preflight, other methods 405, and an unauthorized POST 401. |
| Ingest.StoredNameIsTrimmed | functions/api/nfk.js:46 | A string name with surrounding whitespace is stored without it. |
| Ingest.FalsyNamesAreMissing | functions/api/nfk.js:46-47 | A body that is not an object, or has no truthy `name` member (absent, `null`, `0`, `false`, `""`), gives the empty name. |
| Ingest.FalsyNameExamples | functions/api/nfk.js:46-47 | `{}`, `{"name": 0}`, a `null` body and an array body all give the empty name. |
| Ingest.NumberName | functions/api/nfk.js:46 | `{"name": 42}` stores "42". |
| Ingest.BooleanName | functions/api/nfk.js:46 | `{"name": true}` stores "true". |
| Ingest.ArrayName | functions/api/nfk.js:46 | `{"name": ["a", null, "b"]}` stores "a,,b". |
| Ingest.ObjectName | functions/api/nfk.js:46 | An object name without its own `toString` member is stored as "[object Object]". |
| Ingest.ToStringMemberThrows | functions/api/nfk.js:46-54 | After the gate, `{"name": {"toString": …}}` makes the handler throw before the insert. |
| Ingest.ToStringItemThrows | functions/api/nfk.js:46-54 | The same object inside an array name also makes it throw. |
| Ingest.RepeatedKeyName | functions/api/nfk.js:43-46 | With `name` given twice, the last one is stored. |
| Ingest.LongNameRefused | functions/api/nfk.js:48 | After the gate, a name longer than 80 characters gets "Name too long". |
| Ingest.IngestThenStats | functions/api/nfk.js:50-54 | After a name is ingested at now, statistics for the day ending at any later instant within 24 hours have both totals at least 1, and that name with time now first in `recent`. |

## Left out

- Display formatting: `nzTimeFromIso` / `nzLabelFromIso` and the `from_nz`, `to_nz`, `created_at_nz` and `label_nz` fields depend on `Intl.DateTimeFormat` and the Pacific/Auckland time zone data. This is a foreign library, so the reports carry only the UTC values.
- Date handling: `new Date(string)` and `Date.now()` are the parameters `parse` and `now`. The clock is read once per request where the source reads it up to twice, so a window range is exactly [now − ms, now].
- `toISOString` and the text order of timestamps: the store compares `created_at_utc` as text. That text order matches instant order only for years 0000 to 9999. Outside them, `toISOString` writes an expanded year such as `+010000` or `-000001`, and `'+'` or `'-'` sorts before every digit. For example, `to=+010000-01-01T00:00:00Z` passes the range check, yet the SQL test `created_at_utc <= '+010000-…'` keeps no row from the 2020s, while the model keeps them all. Beyond ±8.64e15 ms (for example the window `99999999999999d`), `toISOString` throws. That throw is uncaught in the statistics handler and becomes the 500 reply in the timeseries handler. The model compares unbounded integer instants and covers none of this.
- Floating point: `Number(m[1])` is an unbounded `nat`, so there is no `Infinity` and no precision loss for long digit strings. JSON numbers are integers. Fractional numbers and the exponent form `String` gives from 1e21 on are not modelled.
- Ingest.JsString: a JSON integer beyond 2^53 loses precision when parsed, so `{"name": 12345678901234567890}` is stored as "12345678901234567000". The model's `IntToDecimal` keeps every digit.
- Strings: a JavaScript string can hold an unpaired surrogate (JSON `"\ud800"`), but a Dafny `char` is a Unicode scalar value. Such names are not modelled.
- Timeseries.TopRows: SQL gives no order among tied counts in the top-five query, so which of several tied names make the top five is left to the store. The model breaks ties by name. What every admissible answer satisfies is proved separately (`Timeseries.TopRowsAdmissible`, `TopNamesLength`, `TopNamesDistinctAndCounted`, `TopNamesAreMostFrequent`).
- Timeseries.ByNameBins: SQL gives no order among `by_name` rows of the same bucket. The model keeps one, and its contract promises only ascending buckets.
- SQLite itself: `prepare`/`bind`/`all`/`first` and the `datetime()`/`strftime` string functions. Query results are functions over the table. A NULL `bucket_utc` (an unparsable stored timestamp) cannot arise from the model's integer instants; `Timeseries.FinishTotal` still drops such rows, as the source's filter does.
- The quote: `ORDER BY RANDOM()` is nondeterministic, so the chosen row's text is the parameter `quoteRow`.
- HTTP plumbing: `Response`/`JSON.stringify` construction, the CORS headers and `request.json()` internals are not modelled. The timeseries try/catch 500 path depends on store faults and is left out. URL parsing is modelled only as the list of decoded query pairs. The `Authorization` header is looked up by the caller, case-insensitively.
- Case mapping: `toLowerCase` is modelled on ASCII letters only. The bucket decision is still exact, because no non-ASCII character lowers to a letter of "hour" or "day". The window unit is matched by a case-insensitive regular expression without the `u` flag, which never folds a non-ASCII character to an ASCII one. Full Unicode lowering is not modelled.
- Concurrency: separate requests are independent and each runs to completion, so interleavings are not modelled.
