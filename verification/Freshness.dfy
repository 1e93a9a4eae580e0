/**
 The freshness check (`compare_paid_order_freshness`) and the direct reindex that answers it
 (`repair_from_payload`). Times are in microseconds; an index write is stamped in whole seconds, and
 the check looks at whole seconds of lag.
 */
module Freshness {
  import opened Arithmetic
  import opened Common
  import opened DriftReports
  import opened Listing

  const SECOND := 1_000_000

  datatype Row = Row(id: string, updatedAt: int)

  /** The `indexed_at` of the documents, by id; `None` for a document that does not have one. */
  type Stamps = map<string, Option<int>>

  datatype Reason = NotObserved | NoEvidence | LatestNotObserved | OverBound

  datatype Finding = Finding(id: string, reason: Reason, lag: Option<int>)

  datatype Report = Report(checkedRecords: nat, violations: seq<Finding>, breaches: seq<Finding>) {
    /** Breaches are evidence of a past delay, not drift. */
    function Status(): DriftReports.Status { StatusOf(CHECK_COMPLETE, |violations|) }
  }

  /** `time.strftime("%Y-%m-%dT%H:%M:%SZ", time.gmtime())`: the stamp of a write at time t. */
  function WholeSecond(t: int): int {
    t - t % SECOND
  }

  /** `int(delta.total_seconds())`: towards zero. */
  function Seconds(delta: int): int {
    if delta >= 0 then delta / SECOND else -(-delta / SECOND)
  }

  /** What the loop finds out about one row: `None` if the row is fresh. */
  function Judge(row: Row, stamps: Stamps, maxLag: int, checkedAt: int): Option<Finding> {
    if row.id !in stamps then
      var lag := Seconds(checkedAt - row.updatedAt);
      Some(Finding(row.id, NotObserved, Some(if lag < 0 then 0 else lag)))
    else if stamps[row.id].None? then Some(Finding(row.id, NoEvidence, None))
    else
      var lag := Seconds(stamps[row.id].value - row.updatedAt);
      if lag < 0 then Some(Finding(row.id, LatestNotObserved, Some(lag)))
      else if lag > maxLag then Some(Finding(row.id, OverBound, Some(lag)))
      else None
  }

  /** The findings about the rows, in row order: the breaches, or else the violations. */
  function Findings(rows: seq<Row>, stamps: Stamps, maxLag: int, checkedAt: int, breaches: bool): seq<Finding> {
    if rows == [] then []
    else
      var front := Findings(rows[..|rows| - 1], stamps, maxLag, checkedAt, breaches);
      var found := Judge(rows[|rows| - 1], stamps, maxLag, checkedAt);
      if found.Some? && found.value.reason.OverBound? == breaches then front + [found.value] else front
  }

  method CompareFreshness(rows: seq<Row>, stamps: Stamps, maxLag: int, checkedAt: int) returns (r: Report)
    ensures r == Report(|rows|, Findings(rows, stamps, maxLag, checkedAt, false),
            Findings(rows, stamps, maxLag, checkedAt, true))
    ensures r.Status() == if r.violations == [] then Healthy else DriftDetected
  {
    var violations, breaches: seq<Finding> := [], [];
    for i := 0 to |rows|
      invariant violations == Findings(rows[..i], stamps, maxLag, checkedAt, false)
      invariant breaches == Findings(rows[..i], stamps, maxLag, checkedAt, true)
    {
      assert rows[..i + 1][..i] == rows[..i];
      var row := rows[i];
      if row.id !in stamps {
        var waited := Seconds(checkedAt - row.updatedAt);
        violations := violations + [Finding(row.id, NotObserved, Some(if waited < 0 then 0 else waited))];
        continue;
      }
      var stamp := stamps[row.id];
      if stamp.None? {
        violations := violations + [Finding(row.id, NoEvidence, None)];
        continue;
      }
      var lag := Seconds(stamp.value - row.updatedAt);
      if lag < 0 {
        violations := violations + [Finding(row.id, LatestNotObserved, Some(lag))];
        continue;
      }
      if lag > maxLag {
        breaches := breaches + [Finding(row.id, OverBound, Some(lag))];
      }
    }
    assert rows[..|rows|] == rows;
    r := Report(|rows|, violations, breaches);
  }

  /** A whole number of seconds, a fraction being dropped, whichever the sign. */
  ghost predicate IsTruncated(seconds: int, micros: int) {
    if micros >= 0 then seconds * 1_000_000 <= micros < (seconds + 1) * 1_000_000
    else (seconds - 1) * 1_000_000 < micros <= seconds * 1_000_000
  }

  lemma SecondsAreTruncated(micros: int)
    ensures IsTruncated(Seconds(micros), micros)
  {
  }

  /**
   What there is to say about a row: a document is missing, or without a stamp, or stamped a second or
   more before the update, or stamped later than the bound allows; and with what lag. Otherwise nothing.
   */
  lemma JudgeIs(row: Row, stamps: Stamps, maxLag: int, checkedAt: int)
    ensures var found := Judge(row, stamps, maxLag, checkedAt);
            && (row.id !in stamps <==> found.Some? && found.value.reason.NotObserved?)
            && (row.id in stamps && stamps[row.id].None? <==> found == Some(Finding(row.id, NoEvidence, None)))
            && (row.id !in stamps ==>
                  && found.value.id == row.id && found.value.lag.Some?
                  && if checkedAt < row.updatedAt then found.value.lag.value == 0
                     else IsTruncated(found.value.lag.value, checkedAt - row.updatedAt))
            && (row.id in stamps && stamps[row.id].Some? ==>
                  var late := stamps[row.id].value - row.updatedAt;
                  && (found.Some? ==> found.value.id == row.id && found.value.lag.Some?
                                      && IsTruncated(found.value.lag.value, late))
                  && (found.Some? && found.value.reason.LatestNotObserved? <==> late <= -1_000_000)
                  && (found.None? <==> -1_000_000 < late < (maxLag + 1) * 1_000_000 && maxLag >= 0)
                  && (found.Some? ==> found.value.reason in {LatestNotObserved, OverBound}))
  {
    SecondsAreTruncated(checkedAt - row.updatedAt);
    if row.id in stamps && stamps[row.id].Some? {
      var late := stamps[row.id].value - row.updatedAt;
      SecondsAreTruncated(late);
      SecondsBounds(late, if maxLag < 0 then 0 else maxLag);
    }
  }

  ghost function FindingEntry(stamps: Stamps, maxLag: int, checkedAt: int, breaches: bool): Row -> Option<Finding> {
    (row: Row) =>
      var found := Judge(row, stamps, maxLag, checkedAt);
      if found.Some? && found.value.reason.OverBound? == breaches then found else None
  }

  /** Each list holds the findings of its kind: one for each row that has one, in the order of the rows. */
  lemma {:induction false} FindingsAre(rows: seq<Row>, stamps: Stamps, maxLag: int, checkedAt: int, breaches: bool)
    ensures Lists(Findings(rows, stamps, maxLag, checkedAt, breaches), rows,
                  FindingEntry(stamps, maxLag, checkedAt, breaches))
    ensures forall f :: f in Findings(rows, stamps, maxLag, checkedAt, breaches) <==>
              f.reason.OverBound? == breaches
              && exists row :: row in rows && Judge(row, stamps, maxLag, checkedAt) == Some(f)
  {
    var entry := FindingEntry(stamps, maxLag, checkedAt, breaches);
    if rows == [] {
      NothingListed(entry);
    } else {
      var front, last := rows[..|rows| - 1], rows[|rows| - 1];
      FindingsAre(front, stamps, maxLag, checkedAt, breaches);
      OneMoreFinding(front, last, stamps, maxLag, checkedAt, breaches);
      assert rows == front + [last];
    }
    ListedEntries(Findings(rows, stamps, maxLag, checkedAt, breaches), rows, entry);
    assert forall row, f :: entry(row) == Some(f)
                            <==> Judge(row, stamps, maxLag, checkedAt) == Some(f) && f.reason.OverBound? == breaches;
  }

  lemma OneMoreFinding(
    front: seq<Row>, last: Row, stamps: Stamps, maxLag: int, checkedAt: int, breaches: bool)
    requires Lists(Findings(front, stamps, maxLag, checkedAt, breaches), front,
                   FindingEntry(stamps, maxLag, checkedAt, breaches))
    ensures Lists(Findings(front + [last], stamps, maxLag, checkedAt, breaches), front + [last],
                  FindingEntry(stamps, maxLag, checkedAt, breaches))
  {
    var entry := FindingEntry(stamps, maxLag, checkedAt, breaches);
    var found := Findings(front, stamps, maxLag, checkedAt, breaches);
    OneMoreListed(found, front, entry, last);
    assert (front + [last])[..|front|] == front;
    assert found + [] == found;
  }

  // ----- what truncation does to the verdict -----

  lemma WholeSecondBounds(t: int)
    ensures WholeSecond(t) <= t < WholeSecond(t) + 1_000_000
    ensures WholeSecond(t) % 1_000_000 == 0
  {
    QuotientIs(WholeSecond(t), SECOND, t / SECOND);
  }

  lemma SecondsBounds(delta: int, k: nat)
    ensures Seconds(delta) < 0 <==> delta <= -SECOND
    ensures Seconds(delta) > k <==> delta >= (k + 1) * SECOND
  {
  }

  /**
   The verdict on a row whose document was written at time t, exactly: the latest update counts as
   not observed if and only if the stamp of the write lies a whole second or more before the update.
   */
  lemma LatestNotObservedIff(row: Row, stamps: Stamps, maxLag: int, checkedAt: int, t: int)
    requires row.id in stamps && stamps[row.id] == Some(WholeSecond(t))
    ensures var f := Judge(row, stamps, maxLag, checkedAt);
            var reported := f.Some? && f.value.reason.LatestNotObserved?;
            && (reported <==> WholeSecond(t) + SECOND <= row.updatedAt)
            && (reported ==> t < row.updatedAt)
            && (t + SECOND <= row.updatedAt ==> reported)
  {
    WholeSecondBounds(t);
    SecondsBounds(WholeSecond(t) - row.updatedAt, 0);
  }

  /** Less than a second early can go unnoticed: a write half a second before the update passes as fresh. */
  lemma EarlyWriteCanPass()
    ensures var row := Row("a", 10 * SECOND + 900_000);
            var t := 10 * SECOND + 400_000;
            t < row.updatedAt && Judge(row, map["a" := Some(WholeSecond(t))], 60, 20 * SECOND) == None
  {
    WholeSecondBounds(10 * SECOND + 400_000);
    assert (10 * SECOND + 400_000) % SECOND == 400_000;
  }

  /**
   A breach means that the write really came later than the bound; a write a second and more beyond
   the bound's last whole second is always a breach.
   */
  lemma BreachIsRealLag(row: Row, stamps: Stamps, maxLag: int, checkedAt: int, t: int)
    requires row.id in stamps && stamps[row.id] == Some(WholeSecond(t)) && maxLag >= 0
    ensures var f := Judge(row, stamps, maxLag, checkedAt);
            var breach := f.Some? && f.value.reason.OverBound?;
            && (breach <==> WholeSecond(t) - row.updatedAt >= (maxLag + 1) * SECOND)
            && (breach ==> t - row.updatedAt > maxLag * SECOND)
            && (t - row.updatedAt >= (maxLag + 2) * SECOND ==> breach)
  {
    WholeSecondBounds(t);
    SecondsBounds(WholeSecond(t) - row.updatedAt, maxLag);
  }

  // ----- direct reindex -----

  /** The stamps after the orders have been written one after another; `clock(k)` is the time of the k-th write. */
  function Reindexed(stamps: Stamps, orders: seq<Row>, clock: nat -> int): Stamps {
    if orders == [] then stamps
    else
      var k := |orders| - 1;
      Reindexed(stamps, orders[..k], clock)[orders[k].id := Some(WholeSecond(clock(k)))]
  }

  class SearchIndex {
    var stamps: Stamps

    constructor (stamps: Stamps)
      ensures this.stamps == stamps
    {
      this.stamps := stamps;
    }

    method IndexOrder(id: string, now: int)
      modifies this
      ensures stamps == old(stamps)[id := Some(WholeSecond(now))]
    {
      stamps := stamps[id := Some(WholeSecond(now))];
    }

    /** The direct-reindex loop over the orders fetched for the report's ids. */
    method DirectReindex(orders: seq<Row>, clock: nat -> int) returns (repaired: nat)
      modifies this
      ensures stamps == Reindexed(old(stamps), orders, clock) && repaired == |orders|
    {
      repaired := 0;
      while repaired < |orders|
        invariant repaired <= |orders|
        invariant stamps == Reindexed(old(stamps), orders[..repaired], clock)
      {
        assert orders[..repaired + 1][..repaired] == orders[..repaired];
        IndexOrder(orders[repaired].id, clock(repaired));
        repaired := repaired + 1;
      }
      assert orders[..|orders|] == orders;
    }
  }

  /** `select * from orders where id = any(ids)` */
  function Fetched(table: seq<Row>, ids: set<string>): seq<Row> {
    if table == [] then []
    else
      var last := table[|table| - 1];
      Fetched(table[..|table| - 1], ids) + (if last.id in ids then [last] else [])
  }

  ghost function FetchedEntry(ids: set<string>): Row -> Option<Row> {
    (row: Row) => if row.id in ids then Some(row) else None
  }

  lemma {:induction false} FetchedRows(table: seq<Row>, ids: set<string>)
    ensures Lists(Fetched(table, ids), table, FetchedEntry(ids))
    ensures forall row :: row in Fetched(table, ids) <==> row in table && row.id in ids
  {
    if table == [] {
      NothingListed(FetchedEntry(ids));
    } else {
      FetchedRows(table[..|table| - 1], ids);
      OneMoreFetched(table[..|table| - 1], table[|table| - 1], ids);
      assert table == table[..|table| - 1] + [table[|table| - 1]];
    }
    ListedEntries(Fetched(table, ids), table, FetchedEntry(ids));
  }

  lemma OneMoreFetched(front: seq<Row>, last: Row, ids: set<string>)
    requires Lists(Fetched(front, ids), front, FetchedEntry(ids))
    ensures Lists(Fetched(front + [last], ids), front + [last], FetchedEntry(ids))
  {
    OneMoreListed(Fetched(front, ids), front, FetchedEntry(ids), last);
    assert (front + [last])[..|front|] == front;
  }

  lemma {:induction false} StampsAfterReindex(stamps: Stamps, orders: seq<Row>, clock: nat -> int, id: string)
      returns (k: nat)
    ensures (exists row :: row in orders && row.id == id) ==>
              k < |orders| && orders[k].id == id && (forall j :: k < j < |orders| ==> orders[j].id != id)
              && id in Reindexed(stamps, orders, clock)
              && Reindexed(stamps, orders, clock)[id] == Some(WholeSecond(clock(k)))
    ensures !(exists row :: row in orders && row.id == id) ==>
              (id in Reindexed(stamps, orders, clock) <==> id in stamps)
              && (id in stamps ==> Reindexed(stamps, orders, clock)[id] == stamps[id])
  {
    k := 0;
    if orders != [] {
      var front, last := orders[..|orders| - 1], orders[|orders| - 1];
      assert orders == front + [last];
      if last.id == id {
        assert last in orders;
        k := |orders| - 1;
      } else {
        k := StampsAfterReindex(stamps, front, clock, id);
        assert forall row :: row in orders && row.id == id ==> row in front;
        assert forall row :: row in front ==> row in orders;
      }
    }
  }

  function IdsOf(findings: seq<Finding>): set<string> {
    set f | f in findings :: f.id
  }

  ghost predicate InViolation(row: Row, stamps: Stamps, maxLag: int, checkedAt: int) {
    var f := Judge(row, stamps, maxLag, checkedAt);
    f.Some? && !f.value.reason.OverBound?
  }

  lemma NoViolationsIff(rows: seq<Row>, stamps: Stamps, maxLag: int, checkedAt: int)
    ensures Findings(rows, stamps, maxLag, checkedAt, false) == []
            <==> forall row :: row in rows ==> !InViolation(row, stamps, maxLag, checkedAt)
  {
    var found := Findings(rows, stamps, maxLag, checkedAt, false);
    assert found != [] ==> found[0] in found;
    FindingsAre(rows, stamps, maxLag, checkedAt, false);
    forall row | row in rows && InViolation(row, stamps, maxLag, checkedAt) ensures found != [] {
      assert Judge(row, stamps, maxLag, checkedAt).value in found;
    }
  }

  /**
   The violated orders written anew, one after another, leave a row in violation if and only if its
   write's stamp lies a second or more before its update.
   */
  lemma RowAfterReindex(
    table: seq<Row>, rows: seq<Row>, stamps: Stamps, clock: nat -> int, maxLag: int, checkedAt: int, recheckedAt: int,
    row: Row)
    returns (k: nat)
    requires row in rows && row in table
    ensures var ids := IdsOf(Findings(rows, stamps, maxLag, checkedAt, false));
            var after := Reindexed(stamps, Fetched(table, ids), clock);
            && (row.id in ids ==>
                  && k < |Fetched(table, ids)| && Fetched(table, ids)[k].id == row.id
                  && (forall j :: k < j < |Fetched(table, ids)| ==> Fetched(table, ids)[j].id != row.id)
                  && (InViolation(row, after, maxLag, recheckedAt)
                      <==> WholeSecond(clock(k)) + SECOND <= row.updatedAt))
            && (row.id !in ids ==> !InViolation(row, after, maxLag, recheckedAt))
  {
    var ids := IdsOf(Findings(rows, stamps, maxLag, checkedAt, false));
    var orders := Fetched(table, ids);
    ViolatedIsFetched(table, rows, stamps, maxLag, checkedAt, row);
    k := StampsAfterReindex(stamps, orders, clock, row.id);
    if row.id in ids {
      LatestNotObservedIff(row, Reindexed(stamps, orders, clock), maxLag, recheckedAt, clock(k));
    }
  }

  lemma ViolatedIsFetched(
    table: seq<Row>, rows: seq<Row>, stamps: Stamps, maxLag: int, checkedAt: int, row: Row)
    requires row in rows && row in table
    ensures var ids := IdsOf(Findings(rows, stamps, maxLag, checkedAt, false));
            && (row.id in ids ==> row in Fetched(table, ids))
            && (row.id !in ids ==>
                  !InViolation(row, stamps, maxLag, checkedAt)
                  && forall r :: r in Fetched(table, ids) ==> r.id != row.id)
  {
    var violations := Findings(rows, stamps, maxLag, checkedAt, false);
    FetchedRows(table, IdsOf(violations));
    if InViolation(row, stamps, maxLag, checkedAt) {
      FindingsAre(rows, stamps, maxLag, checkedAt, false);
      assert Judge(row, stamps, maxLag, checkedAt).value in violations;
    }
  }

  /** A direct reindex of all violations at times no earlier than any update leaves no violation. */
  lemma ReindexLeavesNoViolations(
    table: seq<Row>, rows: seq<Row>, stamps: Stamps, clock: nat -> int, maxLag: int, checkedAt: int, recheckedAt: int)
    requires forall row :: row in rows ==> row in table
    requires forall k: nat, row :: row in rows ==> clock(k) >= row.updatedAt
    ensures var ids := IdsOf(Findings(rows, stamps, maxLag, checkedAt, false));
            var after := Reindexed(stamps, Fetched(table, ids), clock);
            && Findings(rows, after, maxLag, recheckedAt, false) == []
            && Report(|rows|, [], Findings(rows, after, maxLag, recheckedAt, true)).Status() == Healthy
  {
    var ids := IdsOf(Findings(rows, stamps, maxLag, checkedAt, false));
    var after := Reindexed(stamps, Fetched(table, ids), clock);
    forall row | row in rows ensures !InViolation(row, after, maxLag, recheckedAt) {
      var k := RowAfterReindex(table, rows, stamps, clock, maxLag, checkedAt, recheckedAt, row);
      WholeSecondBounds(clock(k));
    }
    NoViolationsIff(rows, after, maxLag, recheckedAt);
  }
}
