/**
 * Attendance records and a functional description of one successful POST on the
 * in-memory store: an upsert on the key (studentId, date, period) followed
 * by the cap that keeps only the newest CAPACITY records.
 */
module Records {
  import opened JsValues

  /** The memory limit of the store: `slice(-1000)` keeps this many records. */
  const CAPACITY: nat := 1000

  /** The fields of a POST body that the handler reads or stores. */
  datatype Body = Body(studentId: JsValue, code: JsValue, name: JsValue, date: JsValue,
                       time: JsValue, period: JsValue, status: JsValue)

  /** A stored check-in: the body's fields plus the server-assigned `id` and `receivedAt`. */
  datatype Record = Record(studentId: JsValue, code: JsValue, name: JsValue, date: JsValue,
                           time: JsValue, period: JsValue, status: JsValue,
                           id: string, receivedAt: string)

  /** The deduplication key: one record per student, date and period. */
  datatype Key = Key(studentId: JsValue, date: JsValue, period: JsValue)

  /** `{...req.body, id, receivedAt}`: the server stamps overwrite whatever the body carried. */
  function MakeRecord(body: Body, id: string, receivedAt: string): (r: Record)
    ensures BodyOf(r) == body && r.id == id && r.receivedAt == receivedAt
  {
    Record(body.studentId, body.code, body.name, body.date, body.time, body.period, body.status,
           id, receivedAt)
  }

  /** The body fields a record carries, without the server stamps. */
  function BodyOf(r: Record): Body {
    Body(r.studentId, r.code, r.name, r.date, r.time, r.period, r.status)
  }

  function KeyOf(r: Record): Key {
    Key(r.studentId, r.date, r.period)
  }

  /** `findIndex` on the key: the first position holding key `k`, or -1 when there is none. */
  function IndexOfKey(s: seq<Record>, k: Key): (i: int)
    ensures -1 <= i < |s|
    ensures 0 <= i ==> KeyOf(s[i]) == k
    ensures forall j :: 0 <= j < |s| && (i < 0 || j < i) ==> KeyOf(s[j]) != k
  {
    IndexFrom(s, k, 0)
  }

  /** The search of `findIndex` from position `from` on. */
  function IndexFrom(s: seq<Record>, k: Key, from: nat): (i: int)
    requires from <= |s|
    ensures i == -1 || from <= i < |s|
    ensures 0 <= i ==> KeyOf(s[i]) == k
    ensures forall j :: from <= j < |s| && (i < 0 || j < i) ==> KeyOf(s[j]) != k
    decreases |s| - from
  {
    if from == |s| then -1
    else if KeyOf(s[from]) == k then from
    else IndexFrom(s, k, from + 1)
  }

  /** The record the store holds for key `k`, if any. */
  function Lookup(s: seq<Record>, k: Key): Option<Record> {
    var i := IndexOfKey(s, k);
    if i < 0 then None else Some(s[i])
  }

  /** At most one record per (studentId, date, period). */
  ghost predicate UniqueKeys(s: seq<Record>) {
    forall i, j :: 0 <= i < j < |s| ==> KeyOf(s[i]) != KeyOf(s[j])
  }

  /** The guarded `slice(-n)`: the newest `n` records, in order, when there are more than `n`. */
  function KeepLast(s: seq<Record>, n: nat): (r: seq<Record>)
    ensures |r| == if |s| > n then n else |s|
    ensures forall j :: 0 <= j < |r| ==> r[j] == s[|s| - |r| + j]
  {
    if |s| > n then s[|s| - n..] else s
  }

  /** The write of a POST: overwrite the slot holding the key, or append. */
  function Write(s: seq<Record>, r: Record): (w: seq<Record>)
    ensures |w| == if IndexOfKey(s, KeyOf(r)) >= 0 then |s| else |s| + 1
    ensures r in w
  {
    var i := IndexOfKey(s, KeyOf(r));
    if i >= 0 then
      assert s[i := r][i] == r;
      s[i := r]
    else
      assert (s + [r])[|s|] == r;
      s + [r]
  }

  /** The store after one successful POST of `r`. */
  function Upsert(s: seq<Record>, r: Record): (u: seq<Record>)
    ensures |u| <= CAPACITY
    ensures |s| <= CAPACITY ==> |s| <= |u| && r in u
  {
    var i := IndexOfKey(s, KeyOf(r));
    var w := Write(s, r);
    var u := KeepLast(w, CAPACITY);
    assert |s| <= CAPACITY && i >= 0 ==> u[i] == r;
    assert |s| <= CAPACITY && i < 0 ==> u[|u| - 1] == w[|w| - 1] == r;
    u
  }

  /** A POST that must drop the oldest record: the store is full and the key is new. */
  predicate Evicts(s: seq<Record>, r: Record) {
    |s| == CAPACITY && IndexOfKey(s, KeyOf(r)) < 0
  }

  /** The store after a sequence of successful POSTs, oldest first. */
  function UpsertAll(s: seq<Record>, rs: seq<Record>): seq<Record>
    decreases |rs|
  {
    if rs == [] then s else Upsert(UpsertAll(s, rs[..|rs| - 1]), rs[|rs| - 1])
  }

  /** A POST whose key is present overwrites that slot: same length, every other slot untouched. */
  lemma ReplaceInPlace(s: seq<Record>, r: Record)
    requires |s| <= CAPACITY
    requires IndexOfKey(s, KeyOf(r)) >= 0
    ensures var i, u := IndexOfKey(s, KeyOf(r)), Upsert(s, r);
      |u| == |s| && u[i] == r && forall j :: 0 <= j < |s| && j != i ==> u[j] == s[j]
  {
    UpsertPresent(s, r);
  }

  /**
   * A POST whose key is absent appends; when the store was full, exactly the
   * single oldest record is dropped and the rest keep their order.
   */
  lemma AppendWhenAbsent(s: seq<Record>, r: Record)
    requires |s| <= CAPACITY
    requires IndexOfKey(s, KeyOf(r)) < 0
    ensures |s| < CAPACITY ==> Upsert(s, r) == s + [r]
    ensures |s| == CAPACITY ==> Upsert(s, r) == s[1..] + [r]
  {
    UpsertAbsent(s, r);
    KeepLastOneMore(s, r);
  }

  lemma UpsertPresent(s: seq<Record>, r: Record)
    requires |s| <= CAPACITY && IndexOfKey(s, KeyOf(r)) >= 0
    ensures Upsert(s, r) == s[IndexOfKey(s, KeyOf(r)) := r]
  {
  }

  lemma UpsertAbsent(s: seq<Record>, r: Record)
    requires IndexOfKey(s, KeyOf(r)) < 0
    ensures Upsert(s, r) == KeepLast(s + [r], CAPACITY)
  {
  }

  lemma KeepLastOneMore(s: seq<Record>, r: Record)
    requires |s| <= CAPACITY
    ensures |s| < CAPACITY ==> KeepLast(s + [r], CAPACITY) == s + [r]
    ensures |s| == CAPACITY ==> KeepLast(s + [r], CAPACITY) == s[1..] + [r]
  {
    var w := s + [r];
    if |s| == CAPACITY {
      assert KeepLast(w, CAPACITY) == w[1..];
      assert w[1..] == s[1..] + [r];
    }
  }

  /** Upserting keeps the key of every record unique. */
  lemma UpsertKeepsKeysUnique(s: seq<Record>, r: Record)
    requires UniqueKeys(s)
    ensures UniqueKeys(Upsert(s, r))
  {
    var i := IndexOfKey(s, KeyOf(r));
    var w := Write(s, r);
    if i >= 0 {
      assert w == s[i := r];
      ReplaceKeepsKeysUnique(s, i, r);
    } else {
      assert w == s + [r];
      AppendKeepsKeysUnique(s, r);
    }
    SuffixKeepsKeysUnique(w, CAPACITY);
  }

  lemma ReplaceKeepsKeysUnique(s: seq<Record>, i: nat, r: Record)
    requires UniqueKeys(s) && i < |s| && KeyOf(s[i]) == KeyOf(r)
    ensures UniqueKeys(s[i := r])
  {
    var w := s[i := r];
    forall a, b | 0 <= a < b < |w| ensures KeyOf(w[a]) != KeyOf(w[b]) {
      assert KeyOf(w[a]) == KeyOf(s[a]) && KeyOf(w[b]) == KeyOf(s[b]);
    }
  }

  lemma AppendKeepsKeysUnique(s: seq<Record>, r: Record)
    requires UniqueKeys(s) && forall j :: 0 <= j < |s| ==> KeyOf(s[j]) != KeyOf(r)
    ensures UniqueKeys(s + [r])
  {
    var w := s + [r];
    forall a, b | 0 <= a < b < |w| ensures KeyOf(w[a]) != KeyOf(w[b]) {
      assert w[a] == s[a];
      if b < |s| {
        assert w[b] == s[b];
      }
    }
  }

  lemma SuffixKeepsKeysUnique(w: seq<Record>, n: nat)
    requires UniqueKeys(w)
    ensures UniqueKeys(KeepLast(w, n))
  {
    if |w| > n {
      var d := |w| - n;
      var u := w[d..];
      forall a, b | 0 <= a < b < |u| ensures KeyOf(u[a]) != KeyOf(u[b]) {
        assert u[a] == w[d + a] && u[b] == w[d + b];
      }
    }
  }

  /** After a POST the store answers the posted key with the posted record. */
  lemma LatestWriteWins(s: seq<Record>, r: Record)
    requires |s| <= CAPACITY
    ensures Lookup(Upsert(s, r), KeyOf(r)) == Some(r)
  {
    var i := IndexOfKey(s, KeyOf(r));
    if i >= 0 {
      UpsertPresent(s, r);
      FoundAfterReplace(s, i, r);
    } else {
      AppendWhenAbsent(s, r);
      if |s| < CAPACITY {
        FoundAfterAppend(s, r);
      } else {
        FoundAfterAppend(s[1..], r);
      }
    }
  }

  lemma FoundAfterReplace(s: seq<Record>, i: nat, r: Record)
    requires i < |s| && IndexOfKey(s, KeyOf(r)) == i
    ensures Lookup(s[i := r], KeyOf(r)) == Some(r)
  {
    FirstIndexIs(s[i := r], KeyOf(r), i);
  }

  lemma FoundAfterAppend(s: seq<Record>, r: Record)
    requires forall j :: 0 <= j < |s| ==> KeyOf(s[j]) != KeyOf(r)
    ensures Lookup(s + [r], KeyOf(r)) == Some(r)
  {
    FirstIndexIs(s + [r], KeyOf(r), |s|);
  }

  /**
   * After a POST every other key is answered as before, except the key of
   * the oldest record when that record was evicted: then the key is gone.
   */
  lemma OtherKeysUnaffected(s: seq<Record>, r: Record, k: Key)
    requires |s| <= CAPACITY && UniqueKeys(s)
    requires k != KeyOf(r)
    ensures Lookup(Upsert(s, r), k) ==
      if Evicts(s, r) && KeyOf(s[0]) == k then None else Lookup(s, k)
  {
    var i := IndexOfKey(s, KeyOf(r));
    var u := Upsert(s, r);
    if i >= 0 {
      ReplaceInPlace(s, r);
      assert u == s[i := r];
      OtherKeysAfterReplace(s, i, r, k);
    } else if |s| < CAPACITY {
      AppendWhenAbsent(s, r);
      OtherKeysAfterAppend(s, r, k);
    } else {
      AppendWhenAbsent(s, r);
      OtherKeysAfterEvict(s, r, k);
    }
  }

  lemma OtherKeysAfterReplace(s: seq<Record>, i: nat, r: Record, k: Key)
    requires i < |s| && KeyOf(s[i]) == KeyOf(r)
    requires k != KeyOf(r)
    ensures Lookup(s[i := r], k) == Lookup(s, k)
  {
    var u := s[i := r];
    var m := IndexOfKey(s, k);
    if m >= 0 {
      FirstIndexIs(u, k, m);
    } else {
      NoIndex(u, k);
    }
  }

  lemma OtherKeysAfterAppend(s: seq<Record>, r: Record, k: Key)
    requires k != KeyOf(r)
    ensures Lookup(s + [r], k) == Lookup(s, k)
  {
    var m := IndexOfKey(s, k);
    var u := s + [r];
    if m >= 0 {
      assert u[m] == s[m];
      FirstIndexIs(u, k, m);
    } else {
      NoIndex(u, k);
    }
  }

  lemma OtherKeysAfterEvict(s: seq<Record>, r: Record, k: Key)
    requires |s| > 0 && UniqueKeys(s)
    requires k != KeyOf(r)
    ensures Lookup(s[1..] + [r], k) == if KeyOf(s[0]) == k then None else Lookup(s, k)
  {
    var m := IndexOfKey(s, k);
    var u := s[1..] + [r];
    if KeyOf(s[0]) == k {
      forall j | 0 <= j < |u| ensures KeyOf(u[j]) != k {
        if j < |u| - 1 {
          assert u[j] == s[j + 1];
        }
      }
      NoIndex(u, k);
    } else if m >= 0 {
      assert u[m - 1] == s[m];
      FirstIndexIs(u, k, m - 1);
    } else {
      NoIndex(u, k);
    }
  }

  /** The first position holding a key is the one `IndexOfKey` finds. */
  lemma FirstIndexIs(s: seq<Record>, k: Key, i: nat)
    requires i < |s| && KeyOf(s[i]) == k
    requires forall j :: 0 <= j < i ==> KeyOf(s[j]) != k
    ensures IndexOfKey(s, k) == i
  {
  }

  lemma NoIndex(s: seq<Record>, k: Key)
    requires forall j :: 0 <= j < |s| ==> KeyOf(s[j]) != k
    ensures IndexOfKey(s, k) == -1
  {
  }

  /**
   * Posting the same key twice leaves one record for it, the second one,
   * and does not change the length the first POST gave the store.
   */
  lemma SecondPostReplacesFirst(s: seq<Record>, r1: Record, r2: Record)
    requires |s| <= CAPACITY && UniqueKeys(s)
    requires KeyOf(r1) == KeyOf(r2)
    ensures var u1 := Upsert(s, r1); var u := Upsert(u1, r2);
      |u| == |u1| && r2 in u && (r1 in u ==> r1 == r2) &&
      forall j :: 0 <= j < |u| && KeyOf(u[j]) == KeyOf(r2) ==> u[j] == r2
  {
    var u1 := Upsert(s, r1);
    LatestWriteWins(s, r1);
    UpsertKeepsKeysUnique(s, r1);
    var i := IndexOfKey(u1, KeyOf(r2));
    ReplaceInPlace(u1, r2);
  }

  /**
   * POSTs with pairwise distinct keys into an empty store leave exactly the
   * newest CAPACITY of them, in the order they were posted.
   */
  lemma {:induction false} DistinctPostsKeepNewest(rs: seq<Record>)
    requires UniqueKeys(rs)
    ensures UpsertAll([], rs) == KeepLast(rs, CAPACITY)
    decreases |rs|
  {
    if rs != [] {
      var n := |rs| - 1;
      var init, x := rs[..n], rs[n];
      assert rs == init + [x];
      SplitLast(init, x);
      DistinctPostsKeepNewest(init);
      var prev := UpsertAll([], init);
      assert UpsertAll([], rs) == Upsert(prev, x);
      KeyAbsentFromNewest(init, x, CAPACITY);
      NoIndex(prev, KeyOf(x));
      UpsertAbsent(prev, x);
      KeepLastAppend(init, x, CAPACITY);
    }
  }

  /** The last of records with unique keys has a key none of the others has. */
  lemma SplitLast(init: seq<Record>, x: Record)
    requires UniqueKeys(init + [x])
    ensures UniqueKeys(init)
    ensures forall j :: 0 <= j < |init| ==> KeyOf(init[j]) != KeyOf(x)
  {
    var rs := init + [x];
    forall j | 0 <= j < |init| ensures KeyOf(init[j]) != KeyOf(x) {
      assert rs[j] == init[j] && rs[|init|] == x;
    }
    forall i, j | 0 <= i < j < |init| ensures KeyOf(init[i]) != KeyOf(init[j]) {
      assert rs[i] == init[i] && rs[j] == init[j];
    }
  }

  /** A key no record of `s` has is not had by any of its newest `n` records either. */
  lemma KeyAbsentFromNewest(s: seq<Record>, x: Record, n: nat)
    requires forall j :: 0 <= j < |s| ==> KeyOf(s[j]) != KeyOf(x)
    ensures forall j :: 0 <= j < |KeepLast(s, n)| ==> KeyOf(KeepLast(s, n)[j]) != KeyOf(x)
  {
    var t := KeepLast(s, n);
    forall j | 0 <= j < |t| ensures KeyOf(t[j]) != KeyOf(x) {
      var a := |s| - |t| + j;
      assert 0 <= a < |s| && t[j] == s[a];
    }
  }

  /** Capping before or after one more append gives the same newest records. */
  lemma KeepLastAppend(s: seq<Record>, x: Record, n: nat)
    ensures KeepLast(KeepLast(s, n) + [x], n) == KeepLast(s + [x], n)
  {
    if |s| >= n > 0 {
      var t := s[|s| - n..];
      var tail := s[|s| - n + 1..] + [x];
      assert KeepLast(s, n) == t;
      assert KeepLast(t + [x], n) == (t + [x])[1..];
      assert (t + [x])[1..] == tail;
      assert KeepLast(s + [x], n) == (s + [x])[|s| + 1 - n..];
      assert (s + [x])[|s| + 1 - n..] == tail;
    }
  }

  /**
   * The overflow case: after CAPACITY + 1 POSTs with distinct keys the store
   * holds CAPACITY records and the first record posted is gone.
   */
  lemma OverflowDropsOldest(rs: seq<Record>)
    requires UniqueKeys(rs) && |rs| == CAPACITY + 1
    ensures |UpsertAll([], rs)| == CAPACITY && rs[0] !in UpsertAll([], rs)
  {
    DistinctPostsKeepNewest(rs);
  }
}
