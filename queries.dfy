/**
 * The GET branch: a chain of optional filters over a copy of the store,
 * followed by a newest-first sort on the time stamped by `date` and `time`.
 */
module Queries {
  import opened JsValues
  import opened Records

  /**
   * The `studentId` query parameter: its raw text, and what `parseInt` made
   * of it (`None` stands for NaN, which is strictly equal to nothing).
   */
  datatype IdParam = IdParam(raw: string, parsed: Option<int>)

  /** The query string of a GET; an absent parameter is `None`. */
  datatype Query = Query(date: Option<string>, studentId: Option<IdParam>, irregularities: Option<string>)

  /** `if (date)`: the parameter is present and not the empty string. */
  predicate DateActive(q: Query) {
    q.date.Some? && !Falsy(Str(q.date.value))
  }

  /** `if (studentId)`: the parameter is present and not the empty string. */
  predicate IdActive(q: Query) {
    q.studentId.Some? && !Falsy(Str(q.studentId.value.raw))
  }

  /** `irregularities === 'true'`: only this exact string turns the filter on. */
  predicate IrregularOnly(q: Query) {
    q.irregularities == Some("true")
  }

  /** `r.studentId === parseInt(studentId)`: only a number equal to the parsed integer matches. */
  predicate IdMatches(parsed: Option<int>, r: Record) {
    parsed.Some? && r.studentId == Num(parsed.value as real)
  }

  predicate DatePasses(q: Query, r: Record) {
    DateActive(q) ==> r.date == Str(q.date.value)
  }

  predicate IdPasses(q: Query, r: Record) {
    IdActive(q) ==> IdMatches(q.studentId.value.parsed, r)
  }

  predicate StatusPasses(q: Query, r: Record) {
    IrregularOnly(q) ==> r.status == Str("Absent")
  }

  /** A record passes a query when it passes every filter the query switches on. */
  predicate Matches(q: Query, r: Record) {
    DatePasses(q, r) && IdPasses(q, r) && StatusPasses(q, r)
  }

  /** `Array.prototype.filter`: the records satisfying `p`, in their order. */
  function Keep(s: seq<Record>, p: Record -> bool): (r: seq<Record>)
    ensures |r| <= |s|
    ensures forall x :: x in r <==> x in s && p(x)
    ensures forall x :: multiset(r)[x] == if p(x) then multiset(s)[x] else 0
  {
    if s == [] then []
    else
      assert s == [s[0]] + s[1..];
      if p(s[0]) then [s[0]] + Keep(s[1..], p) else Keep(s[1..], p)
  }

  /** The filter chain of a GET, each filter applied only when its parameter switches it on. */
  function Filtered(s: seq<Record>, q: Query): (r: seq<Record>)
    ensures forall x :: x in r <==> x in s && Matches(q, x)
  {
    var byDate :=
      if DateActive(q) then var d := q.date.value; Keep(s, (r: Record) => r.date == Str(d)) else s;
    var byId :=
      if IdActive(q) then var n := q.studentId.value.parsed; Keep(byDate, r => IdMatches(n, r)) else byDate;
    if IrregularOnly(q) then Keep(byId, (r: Record) => r.status == Str("Absent")) else byId
  }

  /** Filtering twice is filtering once by the conjunction. */
  lemma {:induction false} KeepFuse(s: seq<Record>, p1: Record -> bool, p2: Record -> bool, p: Record -> bool)
    requires forall x :: p(x) == (p1(x) && p2(x))
    ensures Keep(Keep(s, p1), p2) == Keep(s, p)
  {
    if s != [] {
      KeepFuse(s[1..], p1, p2, p);
    }
  }

  /** Filtering by a predicate every record satisfies changes nothing. */
  lemma {:induction false} KeepAll(s: seq<Record>, p: Record -> bool)
    requires forall x :: p(x)
    ensures Keep(s, p) == s
  {
    if s != [] {
      KeepAll(s[1..], p);
    }
  }

  /** Two pointwise-equal predicates filter alike. */
  lemma {:induction false} KeepSame(s: seq<Record>, p: Record -> bool, p': Record -> bool)
    requires forall x :: p(x) == p'(x)
    ensures Keep(s, p) == Keep(s, p')
  {
    if s != [] {
      KeepSame(s[1..], p, p');
    }
  }

  /** A filter stage of the chain equals filtering by its pass predicate. */
  lemma Stage(s: seq<Record>, active: bool, p: Record -> bool, pass: Record -> bool)
    requires forall x :: pass(x) == (active ==> p(x))
    ensures (if active then Keep(s, p) else s) == Keep(s, pass)
  {
    if active {
      KeepSame(s, p, pass);
    } else {
      KeepAll(s, pass);
    }
  }

  /**
   * The chain of optional filters selects exactly the records that pass
   * every supplied filter: it is one filter by the conjunction.
   */
  lemma QueryIsConjunctiveFilter(s: seq<Record>, q: Query)
    ensures Filtered(s, q) == Keep(s, r => Matches(q, r))
  {
    var p1, p2, p3 := r => DatePasses(q, r), r => IdPasses(q, r), r => StatusPasses(q, r);
    var p12 := r => DatePasses(q, r) && IdPasses(q, r);
    var byDate :=
      if DateActive(q) then var d := q.date.value; Keep(s, (r: Record) => r.date == Str(d)) else s;
    var d := if DateActive(q) then q.date.value else "";
    Stage(s, DateActive(q), (r: Record) => r.date == Str(d), p1);
    var byId :=
      if IdActive(q) then var n := q.studentId.value.parsed; Keep(byDate, r => IdMatches(n, r)) else byDate;
    var n := if IdActive(q) then q.studentId.value.parsed else None;
    Stage(byDate, IdActive(q), r => IdMatches(n, r), p2);
    Stage(byId, IrregularOnly(q), (r: Record) => r.status == Str("Absent"), p3);
    KeepFuse(s, p1, p2, p12);
    KeepFuse(s, p12, p3, r => Matches(q, r));
  }

  /** The `studentId` filter never returns a record whose id is not a number, such as the string "2". */
  lemma IdFilterIsTyped(s: seq<Record>, q: Query, x: Record)
    requires IdActive(q) && !x.studentId.Num?
    ensures x !in Filtered(s, q)
  {
  }

  /** With `irregularities=true`, every returned record is marked "Absent". */
  lemma IrregularitiesAreAbsent(s: seq<Record>, q: Query, x: Record)
    requires IrregularOnly(q) && x in Filtered(s, q)
    ensures x.status == Str("Absent")
  {
  }

  /** The sort key: the time `new Date(`${date} ${time}`)` gives, as a total function of the two fields. */
  function TimeOf(stamp: (JsValue, JsValue) -> int, r: Record): int {
    stamp(r.date, r.time)
  }

  ghost predicate NewestFirst(s: seq<Record>, stamp: (JsValue, JsValue) -> int) {
    forall i, j :: 0 <= i < j < |s| ==> TimeOf(stamp, s[i]) >= TimeOf(stamp, s[j])
  }

  /** Inserts `x` before the first record that is not newer than it. */
  function Insert(x: Record, s: seq<Record>, stamp: (JsValue, JsValue) -> int): (r: seq<Record>)
    requires NewestFirst(s, stamp)
    ensures NewestFirst(r, stamp)
    ensures multiset(r) == multiset(s) + multiset{x}
    ensures forall y :: y in r <==> y == x || y in s
  {
    if s == [] then [x]
    else if TimeOf(stamp, x) >= TimeOf(stamp, s[0]) then
      NewerInFront(x, s, stamp);
      [x] + s
    else
      var rest := Insert(x, s[1..], stamp);
      assert s == [s[0]] + s[1..];
      HeadIsNewest(s, stamp);
      NewerInFront(s[0], rest, stamp);
      [s[0]] + rest
  }

  lemma HeadIsNewest(s: seq<Record>, stamp: (JsValue, JsValue) -> int)
    requires s != [] && NewestFirst(s, stamp)
    ensures forall y :: y in s[1..] ==> TimeOf(stamp, y) <= TimeOf(stamp, s[0])
  {
    forall y | y in s[1..] ensures TimeOf(stamp, y) <= TimeOf(stamp, s[0]) {
      var j :| 0 <= j < |s[1..]| && s[1..][j] == y;
      assert s[j + 1] == y;
    }
  }

  /** A record no older than every record of a newest-first sequence may go in front of it. */
  lemma NewerInFront(h: Record, s: seq<Record>, stamp: (JsValue, JsValue) -> int)
    requires NewestFirst(s, stamp)
    requires forall y :: y in s ==> TimeOf(stamp, y) <= TimeOf(stamp, h)
    ensures NewestFirst([h] + s, stamp)
  {
    var r := [h] + s;
    forall i, j | 0 <= i < j < |r| ensures TimeOf(stamp, r[i]) >= TimeOf(stamp, r[j]) {
      assert r[j] == s[j - 1];
      if i > 0 {
        assert r[i] == s[i - 1];
      }
    }
  }

  /** `filtered.sort((a, b) => dateB - dateA)`: the same records, newest first. */
  function SortNewestFirst(s: seq<Record>, stamp: (JsValue, JsValue) -> int): (r: seq<Record>)
    ensures NewestFirst(r, stamp)
    ensures multiset(r) == multiset(s)
  {
    if s == [] then []
    else
      assert s == [s[0]] + s[1..];
      Insert(s[0], SortNewestFirst(s[1..], stamp), stamp)
  }

  /** A posted record that passes a query's filters is returned by a GET that directly follows the POST. */
  lemma PostedRecordIsQueryable(s: seq<Record>, r: Record, q: Query)
    requires |s| <= CAPACITY && Matches(q, r)
    ensures r in Filtered(Upsert(s, r), q)
  {
  }
}
