# LibreLinkUp glucose API: history window and new-reading watcher

A Dafny model of the two pieces of logic in the LibreLinkUp glucose API
service that do more than call the upstream library:

- **The history endpoint** (`GET /glucose/history?hours=N`, `server.py`).
  It picks the first patient shared with the account, or answers 404 when
  there is none. It keeps the readings stamped at or after `now - hours`
  and sorts them by timestamp with Python's stable `list.sort`. It then
  thins them with the stride `downsample_stride(m, 1000)` through the slice
  `pts[::stride]`, and answers with the points, the echoed `hours` and the
  point count. Module `Server` in `server.dfy`.
- **The watcher** (`watch.py`). It polls the latest reading forever and
  prints a reading only when its timestamp is strictly newer than
  `last_ts`. An exception logs in again. When it is raised before the
  guard (fetching the reading, watch.py:41-43), `last_ts` is kept. When it
  is raised while reporting a reading that has already passed the guard
  (watch.py:45-48), `last_ts` keeps that reading's time although nothing
  was printed, so that reading is never printed. Module
  `Watch` in `watch.dfy`, with the loop state as class `Watcher`.

`glucose.dfy` (module `Glucose`) holds what both share: a `Reading` with
an integer timestamp and an opaque value, `Option`/`Result`, sortedness,
strict increase and an order-preserving subsequence relation.

Timestamps are integers (seconds), so the cutoff is
`now - hours * 3600`. `now` and the fetched series are parameters of
`Server.History`. The in-place `pts.sort` is modelled as an insertion sort on an array
(`Server.SortInPlace`). It is proved equal to the functional stable sort
`Server.SortByTime`, and that function is proved sorted, a permutation of
its input, and stable. The `main` loop of the watcher runs over a finite
sequence of poll outcomes in `Watch.PollLoop`. Its pure counterparts
`Watch.Run` (the value of `last_ts`), `Watch.Accepted` (the timestamps
that passed the guard) and `Watch.Printed` (those whose report did not
raise) carry the lemmas.

The endpoint does not cap the point count at 1000. The stride is
`downsample_stride(m, 1000)`, which is 1 for up to 1000 readings and
`m // 1000` above that. So when more than 1000 readings pass the filter, between 1000 and
1999 points come back, and fewer than 1000 never do. For example 1999
readings give stride 1 and all 1999 points. `Server.WindowCount` and
`Server.WindowUnthinned` state what the code does.

## Model

| member | source | states |
|---|---|---|
| `Server.GetPatient` | server.py:40-44 | an empty patient list gives an error with status 404; otherwise the result is the first patient |
| `Server.DownsampleStride` | server.py:49-52 | for a positive target the stride is at least 1; it is 1 when `n <= target`, and otherwise it is the floor of `n / target` (`stride * target <= n < (stride + 1) * target`) |
| `Server.KeepSince` | server.py:82-83 | every kept reading has `timestamp >= cutoff`, and no more readings are kept than were given |
| `Server.KeepSinceExact` | server.py:82-83 | each reading at or after the cutoff is kept exactly as often as it occurs in the input, and no other reading is kept |
| `Server.KeepSinceSubsequence` | server.py:83 | the filter keeps the input's relative order |
| `Server.SortByTime` | server.py:84 | sorting keeps the number of readings |
| `Server.SortByTimeSorted` | server.py:84 | the sorted list is in non-decreasing timestamp order |
| `Server.SortByTimePermutation` | server.py:84 | the sorted list is a permutation of the filtered list |
| `Server.SortByTimeStable` | server.py:84 | stability: for every timestamp, the readings with that timestamp keep their filtered order |
| `Server.InsertByTimeAt` | server.py:84 | the stable insertion puts the new reading right after the last reading that is not later than it, with every later reading after it |
| `Server.InsertInPlace` | server.py:84 | one insertion-sort pass on the array equals the stable insertion of `a[i]` into the prefix `a[..i]`; the rest of the array is untouched |
| `Server.SortInPlace` | server.py:84 | the in-place sort leaves the array holding the stable sort of its old contents |
| `Server.EveryNth` | server.py:87 | `s[::stride]` is empty iff `s` is, has no more elements than `s`, and starts with `s[0]` |
| `Server.EveryNthLength` | server.py:87 | `s[::stride]` has ceil(len(s) / stride) elements |
| `Server.EveryNthAt` | server.py:87 | element `i` of `s[::stride]` is `s[i * stride]` |
| `Server.EveryNthSubsequence` | server.py:87 | `s[::stride]` is an order-preserving subsequence of `s` |
| `Server.Thin` | server.py:86-87 | thinning never adds points and always keeps the first (earliest, once sorted) point of a non-empty list |
| `Server.ThinAt` | server.py:86-87 | thinned point `i` is the point at `i * stride`, with the stride computed for a target of 1000 points |
| `Server.ThinUnchanged` | server.py:86-87 | fewer than 2000 points pass through the thinning unchanged |
| `Server.ThinCount` | server.py:86-87 | thinning m points keeps ceil(m / stride) of them: at most m, at most 1999, and at least 1000 when m is above 1000 |
| `Server.ThinSubsequence` | server.py:86-87 | the thinned points are an order-preserving subsequence of the points |
| `Server.ThinSorted` | server.py:86-87 | thinning a timestamp-sorted list leaves it sorted |
| `Server.SortedStartsWithEarliest` | server.py:84 | the first sorted reading is no later than any reading given to the sort |
| `Server.SortedKeptWithinCutoff` | server.py:82-84 | every reading in the filtered, sorted list is an input reading stamped at or after the cutoff |
| `Server.Window` | server.py:82-87 | the returned points, `Thin(SortByTime(KeepSince(series, now - hours * 3600)))`, are never more than the readings in the series |
| `Server.WindowSorted` | server.py:84-87 | the returned points are in non-decreasing timestamp order |
| `Server.WindowUnthinned` | server.py:86-87 | with fewer than 2000 filtered readings (so with at most 1000) the points are exactly the filtered readings, sorted |
| `Server.WindowThinned` | server.py:86-87 | with more than 1000 filtered readings, point `i` is sorted reading `i * (m // 1000)`, and the first point is the earliest kept reading |
| `Server.WindowCount` | server.py:86-87 | the point count is ceil(m / stride); it is at most m and at most 1999; for m above 1000 it is at least 1000 |
| `Server.WindowSubsequence` | server.py:84-87 | the points are an order-preserving subsequence of the sorted filtered readings |
| `Server.WindowWithinCutoff` | server.py:82-87 | every point is an input reading stamped at or after `now - hours` |
| `Server.History` | server.py:81-98 | for `hours` in [1, 168], the response's points are the window of the series, `hours` is echoed and `count` equals the number of points |
| `Server.HistoryEndpoint` | server.py:73-98 | `hours` is the query's value or 24 when absent; the endpoint answers 404 exactly when no patient is shared; otherwise its points are the window of the first patient's series, with `hours` echoed and `count` the number of points |
| `Watch.Watcher.constructor` | watch.py:37 | the watcher starts with `last_ts` empty and nothing passed the guard |
| `Watch.Watcher.Observe` | watch.py:43-44 | a reading is accepted iff `last_ts` is empty or its timestamp is strictly greater; on acceptance `last_ts` becomes that timestamp, otherwise it is unchanged; the timestamps that passed the guard (printed or not) stay strictly increasing |
| `Watch.Watcher.PollFailed` | watch.py:50-52 | an exception replaces the client and leaves `last_ts` as it stands at that point |
| `Watch.PollLoop` | watch.py:37-53 | over any run of polls, including reports that raise after the guard, the loop prints exactly `Printed(None, polls)`, which is strictly increasing, and ends with `last_ts` equal to `Run(None, polls)` |
| `Watch.FirstReadingAccepted` | watch.py:37-44 | from an empty `last_ts`, the first reading received passes the guard and becomes `last_ts`, even after failed polls |
| `Watch.Step` | watch.py:41-52 | one iteration never moves `last_ts` back; a failed poll leaves it as it is; after a reading arrives (printed or not) `last_ts` is at least its timestamp |
| `Watch.Run` | watch.py:39-52 | `last_ts` never decreases over any sequence of iterations |
| `Watch.Accepted` | watch.py:41-44 | at most one timestamp per poll passes the guard, and each one that does is a received timestamp |
| `Watch.Printed` | watch.py:43-49 | at most one timestamp per poll is printed, and each one printed passed the guard |
| `Watch.RunIsLastAccepted` | watch.py:39-52 | `last_ts` is the last timestamp that passed the guard, or its starting value when none did |
| `Watch.AcceptedNewerThanStart` | watch.py:39-49 | every timestamp that passes the guard is newer than the starting `last_ts` |
| `Watch.AcceptedIncreasing` | watch.py:39-49 | the timestamps that pass the guard are strictly increasing |
| `Watch.RunIsLatestReceived` | watch.py:37-52 | from an empty start, `last_ts` is empty iff no reading arrived, and otherwise it is the largest timestamp received |
| `Watch.AcceptedSubsequence` | watch.py:41-49 | the timestamps that pass the guard are an order-preserving subsequence of the received ones |
| `Watch.PrintedSubsequence` | watch.py:43-52 | the printed timestamps are an order-preserving subsequence of those that passed the guard; a reading whose report raised is left out |
| `Watch.PrintedWhenReportsSucceed` | watch.py:43-49 | when no report raises, every timestamp that passes the guard is printed |
| `Watch.PrintedUpToRun` | watch.py:43-52 | every printed timestamp is at most the current `last_ts` |
| `Watch.PrintedIncreasing` | watch.py:43-52 | the printed timestamps are strictly increasing, also when some reports raised |

## Left out

- `make_client` and `login` (server.py:30-38, watch.py:17-25): authentication and the one retry after a region redirect, inside the upstream library. The watcher receives the new client as a value.
- The upstream calls `get_patients`, `graph` and `latest`: their results are parameters (the patient list, `graph` as a function from patient to series, the poll outcomes). An exception raised by `graph` is not modelled.
- `mmoll_to_mgdl` and the `round(value * 18)` in the watcher: floating-point arithmetic with round-half-even. Reading values are opaque.
- The JSON projection of each point (`isoformat`, the trend name, mmol and mg/dL): the model returns the readings themselves, one per point, which is why `count` is the number of readings.
- Timezone-aware `datetime` and `timedelta`: timestamps are integer seconds and the cutoff is `now - hours * 3600`.
- The `getattr(p, "timestamp", now)` default at server.py:83: every reading has a timestamp. A reading without one would pass the filter and then make the sort fail.
- The query validation of `hours` (server.py:74): FastAPI answers 422 for values outside [1, 168] before the endpoint runs, so `Server.History` and `Server.HistoryEndpoint` require that range. The default of 24 is modelled.
- `Server.DownsampleStride` requires a positive target: a non-positive target is outside the model. With target 0 and n > 0 the source divides by zero; the endpoint always passes 1000.
- The checks for missing credentials that answer 500 (server.py:61-62, 75-76), `/health`, `/glucose/latest`, the FastAPI app and CORS setup, and `.env` loading.
- The watcher's re-login (watch.py:52) runs inside `except`, so an exception it raises escapes the loop and ends `main`. The model always continues with the new client; such a run of the source is covered by the prefix of polls before the failing re-login, and every property proved is about a finite prefix.
- In the watcher: the startup checks that exit the program (watch.py:28-34), `time.sleep`, the printing itself, and the endless `while True`. The loop runs over a finite sequence of polls instead.
- quickstart.py: a linear script of library calls and prints.
- The response cache, its TTL, the fetch throttle, the back-off after rate limiting and the dose event log: none of these exists in server.py or watch.py.
