/**
 * The module-level `attendanceRecords` array and the two operations the
 * attendance handler performs on it: the POST upsert and the GET query.
 */
module Attendance {
  import opened JsValues
  import opened Records
  import opened Queries

  /** The outcome of a POST: 200 with the new record's id, or 400 for a missing field. */
  datatype PostResult = Recorded(recordId: string) | MissingFields

  class AttendanceStore {
    var records: seq<Record>

    /** At most CAPACITY records and at most one per (studentId, date, period). */
    ghost predicate Valid()
      reads this
    {
      |records| <= CAPACITY && UniqueKeys(records)
    }

    /** `let attendanceRecords = []`. */
    constructor ()
      ensures Valid() && records == []
    {
      records := [];
    }

    /** `findIndex` on the key: a linear search from the oldest record. */
    method FindIndex(k: Key) returns (i: int)
      ensures i == IndexOfKey(records, k)
    {
      i := 0;
      while i < |records|
        invariant 0 <= i <= |records|
        invariant forall j :: 0 <= j < i ==> KeyOf(records[j]) != k
      {
        if KeyOf(records[i]) == k {
          return;
        }
        i := i + 1;
      }
      i := -1;
    }

    /**
     * POST: a body without a truthy `studentId` or `code` is refused and the
     * store is left alone; otherwise the record is upserted on its key and
     * the store is cut back to its newest CAPACITY records.
     */
    method Post(body: Body, id: string, receivedAt: string) returns (res: PostResult)
      requires Valid()
      modifies this
      ensures Valid()
      ensures res == if Falsy(body.studentId) || Falsy(body.code) then MissingFields else Recorded(id)
      ensures res.MissingFields? ==> records == old(records)
      ensures res.Recorded? ==> records == Upsert(old(records), MakeRecord(body, id, receivedAt))
      ensures res.Recorded? ==>
        var r := MakeRecord(body, id, receivedAt);
        r in records && Lookup(records, KeyOf(r)) == Some(r)
    {
      var record := MakeRecord(body, id, receivedAt);
      if Falsy(record.studentId) || Falsy(record.code) {
        return MissingFields;
      }
      ghost var before := records;
      var i := FindIndex(KeyOf(record));
      if i >= 0 {
        records := records[i := record];
      } else {
        records := records + [record];
      }
      assert records == Write(before, record);
      ghost var written := records;
      if |records| > CAPACITY {
        records := records[|records| - CAPACITY..];
      }
      assert records == KeepLast(written, CAPACITY);
      UpsertKeepsKeysUnique(before, record);
      LatestWriteWins(before, record);
      res := Recorded(record.id);
    }

    /**
     * GET: the records that pass every supplied filter, newest first by the
     * time `stamp` gives their `date` and `time`. The store is not modified.
     */
    method Get(q: Query, stamp: (JsValue, JsValue) -> int) returns (rows: seq<Record>)
      ensures forall x :: x in rows <==> x in records && Matches(q, x)
      ensures multiset(rows) == multiset(Keep(records, (r: Record) => Matches(q, r)))
      ensures NewestFirst(rows, stamp)
    {
      var filtered := Filtered(records, q);
      rows := SortNewestFirst(filtered, stamp);
      QueryIsConjunctiveFilter(records, q);
      forall x ensures x in rows <==> x in records && Matches(q, x) {
        assert x in rows <==> x in multiset(rows);
        assert x in filtered <==> x in multiset(filtered);
      }
    }
  }
}
