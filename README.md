# Attendance store

A Dafny model of the in-memory attendance store behind the attendance API
(`api/attendance.js`). Beacon scanners POST check-ins; the handler keeps them
in a module-level array, at most one record per (studentId, date, period), and
at most 1000 records in all, dropping the oldest slots first. GET returns the
stored records that pass up to three optional filters (date, student id,
irregularities only), newest first.

The model has four modules:

- `JsValues` (`js_values.dfy`): the primitive JSON values a body can carry
  (`undefined`, `null`, booleans, numbers, strings) and JavaScript's
  truthiness test. Strict equality `===` on these values is Dafny equality.
- `Records` (`records.dfy`): records, the deduplication key, `findIndex`
  (`IndexOfKey`), the guarded `slice(-1000)` (`KeepLast`) and the whole
  effect of one successful POST on the array (`Upsert`), with lemmas that
  describe it as a dictionary keyed by (studentId, date, period) with
  bounded first-in-first-out eviction.
- `Queries` (`queries.dfy`): the GET filter chain (`Filtered`), the single
  conjunctive filter it equals, and the newest-first sort as an insertion
  sort on an abstract time stamp of `date` and `time`.
- `Attendance` (`store.dfy`): `class AttendanceStore`, whose `records` field
  is the `attendanceRecords` array. `Post` changes it step by step as the
  handler does (a linear search loop, an indexed write or an append, then the
  cut); `Get` reads it and has no `modifies` clause, so a GET never changes
  the store.

The clock values `Date.now().toString()` and `new Date().toISOString()` are
parameters of `Post`. The result of `parseInt` on the `studentId` query
parameter is given with the query (`IdParam.parsed`, `None` for NaN). The
time `new Date(`${date} ${time}`)` is a parameter `stamp` of `Get`, a total
function of the two fields.

The model follows the code as written: validation tests truthiness, not
presence, so a `studentId` of `0` or `""` is
refused and a `code` of `"false"` is accepted; `studentId` may be any value,
and the key comparison uses `===`, so the number `2` and the string `"2"` are
different students, and the `studentId` filter only ever returns numeric ids.
A record updated in place keeps its slot, so the slot's age, not the time of
the last write, decides when it is evicted.

## Model

| member | source | states |
|---|---|---|
| `JsValues.Falsy` | api/attendance.js:28 | `!v` holds exactly for the five falsy primitives: `undefined`, `null`, `false`, `0` and `""` (also the truthiness guards of lines 80 and 85) |
| `Records.MakeRecord` | api/attendance.js:21-25 | The record carries the body's fields verbatim and the server's `id` and `receivedAt`, whatever the body held under those names |
| `Records.Write` | api/attendance.js:42-48 | The indexed write or `push`: the posted record is in the result, whose length is the old length when the key was present and one more when it was absent (`ReplaceInPlace` and `AppendWhenAbsent` pin it down slot by slot) |
| `Records.IndexOfKey` | api/attendance.js:36-40 | The first position whose record has the key, or -1 exactly when no record has it |
| `Records.KeepLast` | api/attendance.js:50-53 | The result is the suffix of the array of length min(length, n): the newest records, in order |
| `Records.Upsert` | api/attendance.js:36-53 | After a successful POST the array holds at most 1000 records; from a store within the cap it does not get shorter and it contains the posted record |
| `Records.ReplaceInPlace` | api/attendance.js:42-44 | When the key is present the record overwrites that slot: same length, every other slot unchanged |
| `Records.AppendWhenAbsent` | api/attendance.js:45-53 | When the key is absent the record is appended; if the store was full, exactly the oldest record is dropped and the rest keep their order |
| `Records.UpsertKeepsKeysUnique` | api/attendance.js:36-53 | At most one record per (studentId, date, period) before a POST implies the same after it |
| `Records.LatestWriteWins` | api/attendance.js:36-53 | After a POST, looking up its key yields the posted record |
| `Records.OtherKeysUnaffected` | api/attendance.js:36-53 | After a POST every other key yields what it did before, except the key of the oldest record when the POST evicted it, which yields nothing |
| `Records.SecondPostReplacesFirst` | api/attendance.js:36-44 | Two POSTs with the same key leave one record for it, the second, and the second does not change the length |
| `Records.DistinctPostsKeepNewest` | api/attendance.js:45-53 | POSTs with pairwise distinct keys into an empty store leave exactly the newest 1000 of them, in posting order |
| `Records.OverflowDropsOldest` | api/attendance.js:50-53 | After 1001 POSTs with distinct keys the store holds 1000 records and the first one posted is gone |
| `Queries.Keep` | api/attendance.js:80-92 | `filter` keeps every occurrence of each record that satisfies the predicate and no occurrence of any other |
| `Queries.QueryIsConjunctiveFilter` | api/attendance.js:77-92 | The chain of optional filters equals one filter by "passes every supplied filter" |
| `Queries.Filtered` | api/attendance.js:77-92 | The GET filter chain: a record is in its result exactly when it is stored and passes every supplied filter (`QueryIsConjunctiveFilter` gives the whole sequence) |
| `Queries.IdFilterIsTyped` | api/attendance.js:85-87 | With a `studentId` parameter, a record whose id is not a number (e.g. the string "2") is never returned |
| `Queries.IrregularitiesAreAbsent` | api/attendance.js:89-92 | With `irregularities=true` every returned record has status "Absent" |
| `Queries.Insert` | api/attendance.js:95-99 | Inserting into a newest-first sequence keeps it newest-first and adds exactly the one record |
| `Queries.SortNewestFirst` | api/attendance.js:95-99 | The sort returns a permutation of its input ordered newest first |
| `Queries.PostedRecordIsQueryable` | api/attendance.js:42-92 | A record posted into a store within the cap is returned by the GET that directly follows the POST, whenever it passes that GET's filters |
| `Attendance.AttendanceStore.constructor` | api/attendance.js:5 | The store starts empty, which satisfies the store invariant |
| `Attendance.AttendanceStore.FindIndex` | api/attendance.js:36-40 | The linear search returns the first index holding the key, or -1 |
| `Attendance.AttendanceStore.Post` | api/attendance.js:19-61 | A falsy `studentId` or `code` gives 400 and leaves the store unchanged; otherwise 200 with the new id, the store becomes the upsert of the old one, keeps at most 1000 records with unique keys, and holds the posted record under its key |
| `Attendance.AttendanceStore.Get` | api/attendance.js:73-101 | The result holds exactly the stored records passing every supplied filter, as a permutation of the filtered records, newest first; the store is not modified |

## Left out

- HTTP plumbing: CORS headers, the OPTIONS preflight and the 405 reply, and reading `req.body` and `req.query`; `Post` and `Get` take the body and the query as values.
- The 500 replies and the `console.log`/`console.error` calls: they belong to exceptions and logging with no modelled cause.
- The clocks behind `id` and `receivedAt`: they are parameters of `Post`.
- `parseInt` itself: its result is part of the query.
- Body fields other than `studentId`, `code`, `name`, `date`, `time`, `period` and `status`; they are stored verbatim and never read.
- The rounding of JSON number text to a double by `JSON.parse` (so `1e-400` reads as `0`, and `2` and `2.0000000000000001` are equal): `Num` holds the parsed double's value as given.
- Objects and arrays as field values (compared by reference under `===`), NaN and the distinction between `0` and `-0`: `JsValue` holds primitives only.
- A query parameter given more than once (an array in `req.query`).
- Unparsable `date`/`time` pairs (an invalid `Date`, NaN in the comparator): `stamp` is a total function to integers.
- Queries.SortNewestFirst: does not state that records with equal time stamps keep their filtered order, which JavaScript's stable sort guarantees.
- Queries.Keep: states which records are kept, not that they keep their relative order.
- Several serverless instances, each with its own array, and cold starts: a deployment matter, not logic of the handler.
- `api/students.js`: a constant two-entry roster returned behind a method check; it has no behaviour to verify.
