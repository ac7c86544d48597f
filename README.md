# guptime core, modelled in Dafny

guptime is a small uptime monitor. It probes each configured HTTP endpoint on a
timer and stores every result in SQLite. A JSON API serves the monitors, a
24-hour summary per monitor and the raw checks over a time range. This project
models four pieces of that program:

- **The monitoring store** (`monitor/monitor.go`, module `Monitoring`). It is a
  class `Service` with three fields:
  - `monitorsConfig`, the monitors loaded at start-up;
  - `registry`, the rows of the `monitors` table, whose primary key is (slug, name);
  - `logs`, the rows of `log_entries`, whose foreign key is (slug, name) with `ON DELETE CASCADE`.

  `Valid()` holds both table constraints, and every state-changing method keeps
  it. The start-up sync, appending log rows, the queries, the purge and the
  response string a probe stores are all modelled.
- **Query-range resolution** (`parseTimeRange` in `api/handlers.go`, module
  `Handlers`). It is a pure function of the three query values, the current
  instant and an abstract `time.ParseDuration`.
- **Configuration string handling** (`config.go`, module `Config`). It covers
  `split`, `trim` and `splitAndTrim` as loops proved against recursive
  definitions, and the CORS allow-list built from `CORS_ALLOWED_HOSTS`
  (default `"*"`).
- **The CORS middleware** (`main.go`, module `Cors`). It models the allow-list
  loop, the five headers and the OPTIONS short-circuit.

Two support modules hold library behaviour the core relies on:
- `Results` has the Option and Result types.
- `Decimal` has `fmt`'s `%d` and `strconv.ParseInt(s, 10, 64)`, with their round trip.

Modelling choices:
- Clocks become `now` parameters. In `Monitoring` these are Unix seconds. In
  `Handlers` they are nanoseconds, since Go subtracts durations before `Unix()`
  rounds down.
- Probe outcomes become an argument, and database failures become a `TxFaults` value.
- SQL becomes its abstract meaning: a transaction is all-or-nothing, the
  foreign key is checked and cascades, and `WHERE` and `ORDER BY` keep their meaning.

In these terms the start-up sync is `DELETE FROM monitors` followed by one
insert per configured monitor. Foreign keys are on (`?_foreign_keys=true`) and
the foreign key cascades, so every start-up with a non-empty configuration
**empties the log table**. `Monitoring.Service.Start` and
`Monitoring.Service.AddMonitorsToDB` state this as `logs == []`. The comment
at monitor/monitor.go:202-203 says the delete is there to prevent orphaned log
entries; together with the cascade it removes every log row.

## Model

| member | source | states |
|---|---|---|
| Monitoring.ResponseString | monitor/monitor.go:243-250 | on a transport error the response is "Error: " followed by the message, and it never counts as up; on a status code, parsing the response gives back the code, and a 3-digit code counts as up exactly when it is 2xx |
| Monitoring.StatusResponseFacts | monitor/monitor.go:249 | the decimal form of a status code parses back to it, and its first character is '2' exactly for 200-299 |
| Monitoring.CountUp | monitor/monitor.go:359 | the number of up entries never exceeds the number of entries in the window |
| Monitoring.UptimePercentage | monitor/monitor.go:357-363 | the uptime is between 0 and 100; it is 0 for an empty window (COALESCE) and 100 when every entry is up |
| Monitoring.Cascade | monitor/monitor.go:157 | after a cascade, every log row refers to a monitor that is still registered |
| Monitoring.InsertByTimestamp | monitor/monitor.go:389 | inserting into a timestamp-ordered list keeps it ordered and adds exactly the one entry |
| Monitoring.SortedCons | monitor/monitor.go:389 | an entry no later than everything in an ordered list can go in front of it |
| Monitoring.Service.constructor | monitor/monitor.go:65-77 | opening the database keeps what both tables held (CREATE TABLE IF NOT EXISTS); the retention period is recorded and no monitor is configured yet |
| Monitoring.Service.Start | monitor/monitor.go:80-96 | the configuration is installed; an empty one changes neither table and succeeds; otherwise the outcome is the sync's: on commit the registry is the deduplicated configuration and logs are empty, and on failure both tables are unchanged |
| Monitoring.Service.AddMonitorsToDB | monitor/monitor.go:195-225 | succeeds iff begin, delete, prepare and commit all succeed; on success the registry is the configuration with later duplicate keys skipped and every log row is gone (cascade); on failure both tables are rolled back |
| Monitoring.Service.SaveLogEntry | monitor/monitor.go:266-275 | succeeds iff (slug, name) is registered, and then appends exactly that row; otherwise the foreign key refuses it and logs are unchanged |
| Monitoring.Service.CheckMonitor | monitor/monitor.go:237-261 | a probe of a registered monitor appends one row holding the completion time, the duration in milliseconds (whole microseconds divided by 1000) and the response string; for an unregistered monitor nothing changes |
| Monitoring.Service.GetMonitors | monitor/monitor.go:278-290 | the result is a permutation of the configuration, ordered by slug and then name |
| Monitoring.SortByKey | monitor/monitor.go:283-288 | the in-place sort leaves the array ordered by the comparator and a permutation of its old contents |
| Monitoring.InsertAt | monitor/monitor.go:283-288 | one insertion step extends the ordered prefix by one element and keeps the array's multiset |
| Monitoring.Swap | monitor/monitor.go:283-288 | exchanges two elements and changes nothing else |
| Monitoring.Service.GetMonitorsBySlug | monitor/monitor.go:293-318 | the result is exactly the registry rows with that slug, with no key repeated; it is an error iff there are none |
| Monitoring.Service.IsConfigured | monitor/monitor.go:327-333 | found iff some configured monitor has that slug and name |
| Monitoring.Service.GetMonitorSummary | monitor/monitor.go:323-369 | it is an error iff the monitor is not configured; the status is the response of a row with the greatest timestamp, or "No data yet" when the monitor has no rows; the window counts and up counts are those of the monitor's rows with timestamp >= now - 86400 |
| Monitoring.LatestRow | monitor/monitor.go:340-353 | -1 iff the monitor has no rows, otherwise the index of one of its rows with the greatest timestamp |
| Monitoring.WindowCounts | monitor/monitor.go:355-367 | the number of the monitor's rows with timestamp >= since, and how many of them are up |
| Monitoring.SortedChecks | monitor/monitor.go:385-407 | exactly the monitor's rows with start <= timestamp <= end (as a multiset), in non-decreasing timestamp order |
| Monitoring.Service.GetMonitorChecks | monitor/monitor.go:373-410 | it is an error iff the monitor is not configured; otherwise it returns exactly the monitor's rows with start <= timestamp <= end (as a multiset), in non-decreasing timestamp order |
| Monitoring.Service.PurgeOldRecords | monitor/monitor.go:429-447 | log rows older than now minus RetentionDays days are deleted and the rest keep their order; the affected count is the number of rows older than the cutoff; the foreign key still holds |
| Monitoring.StrLessIrreflexive | monitor/monitor.go:284-287 | no string is less than itself under Go's byte-wise comparison |
| Monitoring.StrLessAsymmetric | monitor/monitor.go:284-287 | string less-than is asymmetric |
| Monitoring.StrLessTransitive | monitor/monitor.go:284-287 | string less-than is transitive |
| Monitoring.StrLessTotal | monitor/monitor.go:284-287 | of two distinct strings one is less than the other |
| Monitoring.MonitorLessAsymmetric | monitor/monitor.go:283-288 | the sort comparator is asymmetric |
| Monitoring.MonitorLeqTransitive | monitor/monitor.go:283-288 | "not less than" under the comparator is transitive, so it is a strict weak order |
| Monitoring.FirstByKeyUnique | monitor/monitor.go:136-141 | after the sync the registry holds every (slug, name) at most once |
| Monitoring.FirstByKeyKeys | monitor/monitor.go:215-222 | a key is in the synced registry iff it is in the configuration |
| Monitoring.FirstByKeyFromConfig | monitor/monitor.go:215-222 | every synced row is a configured monitor |
| Monitoring.FirstOccurrenceWins | monitor/monitor.go:215-222 | the first configured monitor with a key is the one stored; later duplicates fail the primary key and are skipped |
| Monitoring.FirstByKeyOfUnique | monitor/monitor.go:215-222 | a configuration without duplicate keys is stored as it is, in order |
| Monitoring.NoRowSurvivesClear | monitor/monitor.go:200-206 | after DELETE FROM monitors the cascade leaves no log row |
| Monitoring.KeepSinceMembers | monitor/monitor.go:434 | a row survives the purge iff it was present and its timestamp is >= the cutoff |
| Monitoring.KeepSinceLength | monitor/monitor.go:434-446 | the purge removes exactly as many rows as are older than the cutoff |
| Monitoring.KeepSinceIdempotent | monitor/monitor.go:434 | a second purge at the same cutoff removes nothing |
| Monitoring.KeepSinceMonotone | monitor/monitor.go:431-434 | purging at two cutoffs, in either order, equals one purge at the later cutoff |
| Monitoring.KeepSinceAppend | monitor/monitor.go:434 | the purge works row by row: it distributes over concatenation, so survivors keep their place |
| Monitoring.KeepSinceReferenced | monitor/monitor.go:150-158 | the purge only deletes, so the foreign key keeps holding |
| Monitoring.ChecksOfInRange | monitor/monitor.go:385-390 | every returned check lies in [start, end], and every row of the monitor in that range is returned |
| Monitoring.WindowOfSince | monitor/monitor.go:356-363 | every summary window entry has timestamp >= since, every row of the monitor with timestamp >= since is in the window, and the window is no larger than the table |
| Decimal.DigitChar | monitor/monitor.go:249 | each digit value maps to the matching decimal digit character |
| Decimal.Digits | monitor/monitor.go:249 | %d of a natural number is all digits, one digit exactly below 10, and has no leading zero |
| Decimal.FormatInt | monitor/monitor.go:249 | %d yields a non-empty string that starts with '-' exactly for negative numbers |
| Decimal.ParseInt64 | api/handlers.go:129-140 | a successful ParseInt(s, 10, 64) lies in the int64 range, and s starts with a digit or a sign |
| Decimal.DigitsValueOfDigits | api/handlers.go:129 | reading back the digits of n gives n |
| Decimal.FormatParseRoundTrip | monitor/monitor.go:249 | for any int64, parsing its %d form gives the number back |
| Decimal.ThreeDigitLeading | monitor/monitor.go:359 | a three-digit code starts with '2' exactly when it is in 200-299 |
| Handlers.ParseTimeRange | api/handlers.go:121-169 | a successful result from an explicit start_time has start <= end; an absent end_time makes the end now's Unix second; a given end_time is its parsed value |
| Handlers.BadEndTimeRejected | api/handlers.go:128-133 | a non-empty end_time that is not a base-10 int64 gives "invalid end_time parameter" |
| Handlers.StartTimeOverridesRange | api/handlers.go:138-148 | with a start_time present, range and ParseDuration have no influence; the result is Ok iff both numbers parse and start <= end, and then start is start_time |
| Handlers.DefaultIsLastDay | api/handlers.go:150-167 | with neither start_time nor range, the start is now - 86400 |
| Handlers.BadRangeRejected | api/handlers.go:152-164 | a range that ParseDuration rejects is an error |
| Handlers.PresetWindowUnordered | api/handlers.go:150-168 | on the preset branch there is no order check: for every valid end_time e and every empty or accepted range, e < Unix(now.Add(-duration)) yields Ok(start = Unix(now.Add(-duration)), end = e) with start > end, where -duration is the int64 negation |
| Handlers.MinDurationWraps | api/handlers.go:154-167 | a parsed duration of MinInt64 is its own int64 negation, so the window starts about 292 years before now rather than after it |
| Handlers.PresetWindowUnorderedExample | api/handlers.go:150-168 | such inputs exist: end_time=5 with an empty range at now=100000 s yields start > end |
| Handlers.DayPresetsRejected | api/handlers.go:152-164 | as written, "7d" and "30d" never reach their special case: ParseDuration rejects them first and the request fails |
| Handlers.ParseTimeRangeWithDays | api/handlers.go:119-161 | the corrected resolution keeps start <= end on the start_time branch and the end defaulting to now |
| Handlers.DayPresetsAccepted | api/handlers.go:119-161 | with the correction, "7d" and "30d" give windows of the last 7 and 30 days |
| Handlers.DayPresetsOnlyChange | api/handlers.go:121-169 | the correction agrees with the code on every other input |
| Config.FirstFrom | config.go:81-88 | the next cut position from a given index is an occurrence of sep at or after it |
| Config.FirstFromLeftmost | config.go:81-88 | no occurrence lies before the position found, and none at all from the index when nothing is found |
| Config.FirstFromSkip | config.go:82-87 | a position where sep does not occur does not change where the next cut is |
| Config.OccursInSlice | config.go:82 | an occurrence inside a slice of s is an occurrence in s that ends within the slice |
| Config.PartsNonEmpty | config.go:90 | split always yields at least one part |
| Config.JoinParts | config.go:78-92 | joining the parts with sep gives back the input |
| Config.PartsAvoidSep | config.go:81-88 | no part contains sep |
| Config.PartsCount | config.go:81-90 | for a one-character sep there is one more part than occurrences of sep |
| Config.PartsFromCut | config.go:82-85 | at the next occurrence of sep the loop emits s[start:i] and resumes after sep |
| Config.PartsFromLast | config.go:90 | without any further occurrence, the rest of the string is the last part |
| Config.JoinPartsFrom | config.go:78-92 | joining the parts collected from start on gives back s[start:] |
| Config.PartsFromAvoidSep | config.go:81-90 | no part collected from start on contains sep |
| Config.PartsFromCount | config.go:81-90 | for a one-character sep, the parts from start on are one more than its occurrences in s[start:] |
| Config.Split | config.go:78-92 | the loop computes exactly the parts of the recursive definition |
| Config.TrimmedIsSlice | config.go:95-105 | trim returns a contiguous slice of its input with only whitespace cut off at both ends |
| Config.TrimmedEnds | config.go:97-104 | a trimmed string is empty or starts and ends with non-whitespace |
| Config.TrimmedIdempotent | config.go:95-105 | trimming twice equals trimming once |
| Config.TrimmedEmpty | config.go:97-104 | trim gives "" exactly for strings made only of ' ', '\t', '\n', '\r' |
| Config.Trim | config.go:95-105 | the two loops compute the recursive trimmed value |
| Config.TrimAll | config.go:70-73 | trimming every part keeps the number of parts |
| Config.SplitAndTrim | config.go:68-75 | as many elements as split has parts, and element i is part i trimmed |
| Config.LoadCorsAllowedHosts | config.go:46-52 | the host list is the non-empty trimmed parts of the variable, or of "*" when it is unset |
| Config.DropEmpty | config.go:48-52 | the filter loop keeps exactly the non-empty hosts, in input order |
| Config.NonEmptySnoc | config.go:49-51 | one more host is kept by the filter exactly when it is non-empty |
| Config.NonEmptyMembers | config.go:49 | the filter keeps exactly the non-empty elements |
| Config.NonEmptyAppend | config.go:48-51 | the filter works element-wise, so it keeps input order |
| Config.TrimAllUnique | config.go:68-75 | a list that has the length of the parts and trims each one is the trimmed list |
| Config.TrimAllAt | config.go:71 | element i of the trimmed list is part i trimmed |
| Config.CorsHostsWellFormed | config.go:46-52 | no host is empty, and none starts or ends with whitespace |
| Config.CorsHostsFromParts | config.go:46-52 | every host is some trimmed comma-separated part of the variable |
| Config.CorsHostsDefault | config.go:46 | with the variable unset the list is ["*"] |
| Config.CorsHostsBlank | config.go:46-52 | a value made only of whitespace and commas yields an empty list, which then allows no origin |
| Config.NonEmptyOfBlanks | config.go:49 | a list of empty strings filters to nothing |
| Config.PartBlank | config.go:81-90 | the parts of a value made of whitespace and commas are all whitespace |
| Config.PartIsSubstring | config.go:78-92 | every part's characters occur in the joined string |
| Cors.Handle | main.go:73-96 | the five CORS headers are set exactly when some host is "*" or the origin and the origin is non-empty, and none are set otherwise; OPTIONS is answered with 204 and never forwarded; every other method is forwarded |
| Cors.EmptyListAllowsNothing | main.go:77-82 | an empty allow-list allows no origin |
| Cors.WildcardAllowsAll | main.go:78 | "*" anywhere in the list allows every origin |
| Cors.AllowOriginEchoes | main.go:83-89 | Access-Control-Allow-Origin is present only for an allowed non-empty origin, echoes it, and is "*" only when the client sent "*" |

## Left out

- Probing and scheduling are not modelled: `http.Get`, latency measurement, `monitorAll` and the tickers and goroutines of `Start` and `startRetentionCron`. These are network I/O and concurrency. The probe's outcome and duration are arguments of `CheckMonitor`.
- The SQLite driver is replaced by table semantics. Driver and I/O errors other than the four transaction faults are not modelled. That covers open, create, query, scan, row iteration, the QueryRow errors of `GetMonitorSummary`, the purge's `Exec` and `RowsAffected` failures, and per-row insert failures other than a primary-key conflict.
- The autoincrement `id` of `log_entries` is not modelled, and neither is the index.
- Monitoring.Service.GetMonitorsBySlug: the order of its rows is left unconstrained, because the SQL query has no ORDER BY. The result is stated as a set with unique keys.
- Monitoring.Service.CheckMonitor: the stored `time` is the exact real `elapsedMicros / 1000`, where the source keeps `float64(elapsed.Microseconds()) / 1000.0` rounded to a float64; `GetMonitorChecks` returns that value. Floating-point rounding is not modelled.
- Monitoring.Service.GetMonitorSummary: among rows that tie on the latest timestamp, which one gives the status is left open, as in the SQL. The uptime is returned as the exact pair (up, window). The average response time (`AVG(time)`) and the floating-point forms of both averages are not modelled.
- Monitoring.Service.GetMonitorChecks: the order among rows with equal timestamps is left open, as in the SQL, so the contents are stated as a multiset.
- Monitoring.Service.PurgeOldRecords: the retention period is computed with unbounded integers. The int64 nanosecond overflow of `time.Duration(RetentionDays) * 24 * time.Hour` for more than about 106751 days is not modelled, and neither is the saturation of `time.Time.Add`.
- Reading and parsing `monitors.json` (`loadMonitorsConfig`) is not modelled. `Start` receives the parsed configuration, so its load-error return is not modelled either.
- `time.Now()` is a parameter everywhere. `time.ParseDuration` is an abstract function parameter. `LikeParseDuration` records what is known of it: every accepted string ends in a unit letter or is zero, and every result is an int64.
- The rest of `LoadConfig` is not modelled: `getEnv` for the other variables, and `ParseDuration` and `Atoi` for the interval and the retention days. The CORS variable's lookup is the `Option` argument of `LoadCorsAllowedHosts`.
- Config.Split, Config.SplitAndTrim: they require a non-empty separator. With an empty one the source loop never advances and does not terminate. The only caller passes ",".
- Go strings are byte strings, while the model uses `char` sequences. Comparison, splitting and trimming agree on ASCII and, for comparison, on valid UTF-8.
- The HTTP plumbing is not modelled: JSON encoding, response writing, the summary cache, routing, the other middleware, Swagger and shutdown.
- The handlers call `GetMonitorSummary` and `GetMonitorChecks` with one identifier, while the service methods take (slug, name). That wiring is not modelled.

## Findings

| source | as written | input that shows it | evidently intended | confidence | as-written member | corrected member |
|---|---|---|---|---|---|---|
| api/handlers.go:152-164 | `range` is passed to `time.ParseDuration` first, and the "7d"/"30d" special cases run only when that succeeds | `range=7d` or `range=30d` without `start_time`: ParseDuration has no day unit, so the request fails with "invalid range parameter" | the documented presets "7d" and "30d" select the last 7 or 30 days | high (not executed) | Handlers.DayPresetsRejected | Handlers.ParseTimeRangeWithDays, Handlers.DayPresetsAccepted |
