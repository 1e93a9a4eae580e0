/**
 The query invariant check (`checker.check_query_invariant`): scan the source, possibly from a stored
 checkpoint, read the target, compare row by row, and report.
 */
module QueryCheck {
  import opened Common
  import opened DriftReports
  import opened Paging
  import opened KeysetScan
  import opened TargetSearch
  import opened Listing

  datatype Missing = Missing(key: string, source: Columns)

  /** A row that differs; `key` is `None` when the source row has no key at all. */
  datatype Stale = Stale(key: Option<string>, fields: seq<string>, source: Columns, target: Columns)

  datatype QueryReport = QueryReport(
    checkedRecords: nat, missing: seq<Missing>, stale: seq<Stale>, checkStatus: string, evidence: Evidence)
  {
    function DriftCount(): nat { |missing| + |stale| }

    function Status(): DriftReports.Status { StatusOf(checkStatus, DriftCount()) }
  }

  datatype CheckError = CheckpointOfOtherQuery | ScanFailed(scan: ScanError) | SearchFailed(search: SearchError)

  // ----- comparison -----

  /** The target rows by key: rows without a key are left out, and the last row of a key wins. */
  function ByKey(rows: seq<Columns>, keyField: string): map<string, Columns> {
    if rows == [] then map[]
    else
      var front, last := ByKey(rows[..|rows| - 1], keyField), rows[|rows| - 1];
      match Lookup(last, keyField)
      case None => front
      case Some(key) => front[key := last]
  }

  /** The compare fields on which the rows differ, an absent value being different from any text. */
  function Mismatches(source: Columns, target: Columns, fields: seq<string>): seq<string> {
    if fields == [] then []
    else
      var front, last := Mismatches(source, target, fields[..|fields| - 1]), fields[|fields| - 1];
      front + (if Lookup(source, last) != Lookup(target, last) then [last] else [])
  }

  function MissingOf(source: Columns, targets: map<string, Columns>, keyField: string): seq<Missing> {
    match Lookup(source, keyField)
    case None => []
    case Some(key) => if key in targets then [] else [Missing(key, source)]
  }

  function StaleOf(source: Columns, targets: map<string, Columns>, keyField: string, fields: seq<string>): seq<Stale> {
    match Lookup(source, keyField)
    case None => [Stale(None, [keyField], source, map[])]
    case Some(key) =>
      if key !in targets then []
      else
        var differing := Mismatches(source, targets[key], fields);
        if differing == [] then [] else [Stale(Some(key), differing, source, targets[key])]
  }

  function AllMissing(rows: seq<Columns>, targets: map<string, Columns>, keyField: string): seq<Missing> {
    if rows == [] then []
    else AllMissing(rows[..|rows| - 1], targets, keyField) + MissingOf(rows[|rows| - 1], targets, keyField)
  }

  function AllStale(rows: seq<Columns>, targets: map<string, Columns>, keyField: string,
      fields: seq<string>): seq<Stale> {
    if rows == [] then []
    else AllStale(rows[..|rows| - 1], targets, keyField, fields) + StaleOf(rows[|rows| - 1], targets, keyField, fields)
  }

  method CompareQueryResults(
    sourceRows: seq<Columns>, targetRows: seq<Columns>, keyField: string, compareFields: seq<string>,
    checkStatus: string, evidence: Evidence) returns (r: QueryReport)
    ensures var targets := ByKey(targetRows, keyField);
            r == QueryReport(|sourceRows|, AllMissing(sourceRows, targets, keyField),
                             AllStale(sourceRows, targets, keyField, compareFields), checkStatus, evidence)
    ensures Lists(r.missing, sourceRows, MissingEntry(targetRows, keyField))
    ensures Lists(r.stale, sourceRows, StaleEntry(targetRows, keyField, compareFields))
  {
    var targetByKey: map<string, Columns> := map[];
    for i := 0 to |targetRows|
      invariant targetByKey == ByKey(targetRows[..i], keyField)
    {
      assert targetRows[..i + 1][..i] == targetRows[..i];
      var key := Lookup(targetRows[i], keyField);
      if key.Some? {
        targetByKey := targetByKey[key.value := targetRows[i]];
      }
    }
    assert targetRows[..|targetRows|] == targetRows;
    var missing: seq<Missing>, stale: seq<Stale> := [], [];
    for i := 0 to |sourceRows|
      invariant missing == AllMissing(sourceRows[..i], targetByKey, keyField)
      invariant stale == AllStale(sourceRows[..i], targetByKey, keyField, compareFields)
    {
      assert sourceRows[..i + 1][..i] == sourceRows[..i];
      var source := sourceRows[i];
      var key := Lookup(source, keyField);
      if key.None? {
        stale := stale + [Stale(None, [keyField], source, map[])];
      } else if key.value !in targetByKey {
        missing := missing + [Missing(key.value, source)];
      } else {
        var differing := Mismatches(source, targetByKey[key.value], compareFields);
        if differing != [] {
          stale := stale + [Stale(key, differing, source, targetByKey[key.value])];
        }
      }
    }
    assert sourceRows[..|sourceRows|] == sourceRows;
    MissingListed(sourceRows, targetRows, keyField);
    StaleListed(sourceRows, targetRows, keyField, compareFields);
    r := QueryReport(|sourceRows|, missing, stale, checkStatus, evidence);
  }

  /** The target row of a key, and equal in every compare field. */
  ghost predicate Agree(source: Columns, target: Columns, keyField: string, fields: seq<string>) {
    && Lookup(source, keyField).Some?
    && Lookup(target, keyField) == Lookup(source, keyField)
    && forall f :: f in fields ==> Lookup(source, f) == Lookup(target, f)
  }

  /** `target` is the last of the target rows with its key. */
  ghost predicate LastOfItsKey(rows: seq<Columns>, i: int, keyField: string) {
    0 <= i < |rows| && forall j :: i < j < |rows| ==> Lookup(rows[j], keyField) != Lookup(rows[i], keyField)
  }

  ghost predicate Matched(source: Columns, targetRows: seq<Columns>, keyField: string, fields: seq<string>) {
    exists i :: LastOfItsKey(targetRows, i, keyField) && Agree(source, targetRows[i], keyField, fields)
  }

  lemma {:induction false} ByKeyIsLastRow(rows: seq<Columns>, keyField: string, key: string) returns (i: int)
    ensures key in ByKey(rows, keyField) ==>
              && LastOfItsKey(rows, i, keyField) && Lookup(rows[i], keyField) == Some(key)
              && ByKey(rows, keyField)[key] == rows[i]
    ensures key !in ByKey(rows, keyField) ==> forall j :: 0 <= j < |rows| ==> Lookup(rows[j], keyField) != Some(key)
  {
    i := 0;
    if rows != [] {
      var front := rows[..|rows| - 1];
      i := ByKeyIsLastRow(front, keyField, key);
      if Lookup(rows[|rows| - 1], keyField) == Some(key) {
        i := |rows| - 1;
      } else if key in ByKey(front, keyField) {
        assert rows[i] == front[i];
        forall j | i < j < |rows| ensures Lookup(rows[j], keyField) != Lookup(rows[i], keyField) {
          if j < |rows| - 1 { assert rows[j] == front[j]; }
        }
      } else {
        forall j | 0 <= j < |rows| ensures Lookup(rows[j], keyField) != Some(key) {
          if j < |rows| - 1 { assert rows[j] == front[j]; }
        }
      }
    }
  }

  lemma {:induction false} MismatchesEmpty(source: Columns, target: Columns, fields: seq<string>)
    ensures Mismatches(source, target, fields) == []
            <==> forall f :: f in fields ==> Lookup(source, f) == Lookup(target, f)
  {
    if fields != [] {
      MismatchesEmpty(source, target, fields[..|fields| - 1]);
      assert fields == fields[..|fields| - 1] + [fields[|fields| - 1]];
    }
  }

  // ----- what the lists hold -----

  /** A source row is missing if it has a key that no target row has. */
  ghost function MissingEntry(targetRows: seq<Columns>, keyField: string): Columns -> Option<Missing> {
    (source: Columns) =>
      var key := Lookup(source, keyField);
      if key.Some? && forall t :: t in targetRows ==> Lookup(t, keyField) != key
      then Some(Missing(key.value, source)) else None
  }

  /** Both rows have the field, or neither has, with the same text. */
  ghost function DifferingField(source: Columns, target: Columns): string -> Option<string> {
    (f: string) =>
      var s, t := if f in source then source[f] else None, if f in target then target[f] else None;
      if s == t then None else Some(f)
  }

  /** The entry is for the row: it names the fields, in the order they are compared in, that differ. */
  ghost predicate IsStaleEntry(
    e: Stale, source: Columns, targetRows: seq<Columns>, keyField: string, fields: seq<string>)
  {
    && e.source == source && e.key == Lookup(source, keyField)
    && if e.key.None? then e.fields == [keyField] && e.target == map[]
       else
         && e.fields != [] && Lists(e.fields, fields, DifferingField(source, e.target))
         && exists i :: LastOfItsKey(targetRows, i, keyField) && targetRows[i] == e.target
              && Lookup(e.target, keyField) == e.key
  }

  ghost function StaleEntry(targetRows: seq<Columns>, keyField: string, fields: seq<string>): Columns -> Option<Stale> {
    (source: Columns) =>
      if exists e :: IsStaleEntry(e, source, targetRows, keyField, fields)
      then var e :| IsStaleEntry(e, source, targetRows, keyField, fields); Some(e) else None
  }

  lemma {:induction false} MismatchesListed(source: Columns, target: Columns, fields: seq<string>)
    ensures Lists(Mismatches(source, target, fields), fields, DifferingField(source, target))
  {
    if fields == [] {
      NothingListed(DifferingField(source, target));
    } else {
      var front, last := fields[..|fields| - 1], fields[|fields| - 1];
      MismatchesListed(source, target, front);
      OneMoreMismatch(source, target, front, last);
      assert fields == front + [last];
    }
  }

  lemma OneMoreMismatch(source: Columns, target: Columns, front: seq<string>, last: string)
    requires Lists(Mismatches(source, target, front), front, DifferingField(source, target))
    ensures Lists(Mismatches(source, target, front + [last]), front + [last], DifferingField(source, target))
  {
    OneMoreListed(Mismatches(source, target, front), front, DifferingField(source, target), last);
    assert (front + [last])[..|front|] == front;
  }

  lemma MissingOfRow(source: Columns, targetRows: seq<Columns>, keyField: string)
    ensures MissingOf(source, ByKey(targetRows, keyField), keyField)
            == AsList(MissingEntry(targetRows, keyField)(source))
  {
    var key := Lookup(source, keyField);
    if key.Some? {
      var i := ByKeyIsLastRow(targetRows, keyField, key.value);
      assert key.value in ByKey(targetRows, keyField) ==> targetRows[i] in targetRows;
    }
  }

  /** The entry for a row, if the last target row of its key is at i. */
  lemma StaleAgainst(source: Columns, targetRows: seq<Columns>, i: int, keyField: string, fields: seq<string>, e: Stale)
    requires LastOfItsKey(targetRows, i, keyField)
    requires Lookup(source, keyField).Some? && Lookup(targetRows[i], keyField) == Lookup(source, keyField)
    ensures IsStaleEntry(e, source, targetRows, keyField, fields)
            <==> var differing := Mismatches(source, targetRows[i], fields);
                 differing != [] && e == Stale(Lookup(source, keyField), differing, source, targetRows[i])
  {
    MismatchesListed(source, targetRows[i], fields);
    if IsStaleEntry(e, source, targetRows, keyField, fields) {
      var j :| LastOfItsKey(targetRows, j, keyField) && targetRows[j] == e.target
               && Lookup(e.target, keyField) == e.key;
      assert !(i < j) && !(j < i);
      ListedOnce(e.fields, Mismatches(source, e.target, fields), fields, DifferingField(source, e.target));
    }
  }

  lemma StaleEntryIs(source: Columns, targetRows: seq<Columns>, keyField: string, fields: seq<string>, e: Stale)
    ensures IsStaleEntry(e, source, targetRows, keyField, fields)
            <==> StaleOf(source, ByKey(targetRows, keyField), keyField, fields) == [e]
  {
    var key := Lookup(source, keyField);
    if key.Some? {
      var i := ByKeyIsLastRow(targetRows, keyField, key.value);
      if key.value in ByKey(targetRows, keyField) {
        StaleAgainst(source, targetRows, i, keyField, fields, e);
      }
    }
  }

  lemma StaleOfRow(source: Columns, targetRows: seq<Columns>, keyField: string, fields: seq<string>)
    ensures StaleOf(source, ByKey(targetRows, keyField), keyField, fields)
            == AsList(StaleEntry(targetRows, keyField, fields)(source))
    ensures forall e :: StaleEntry(targetRows, keyField, fields)(source) == Some(e)
                        <==> IsStaleEntry(e, source, targetRows, keyField, fields)
  {
    var stale := StaleOf(source, ByKey(targetRows, keyField), keyField, fields);
    forall e ensures IsStaleEntry(e, source, targetRows, keyField, fields) <==> stale == [e] {
      StaleEntryIs(source, targetRows, keyField, fields, e);
    }
    assert stale == [] || stale == [stale[0]];
  }

  /** The missing list has one entry for each source row without a target row of its key, in their order. */
  lemma MissingAre(rows: seq<Columns>, targetRows: seq<Columns>, keyField: string)
    ensures var missing := AllMissing(rows, ByKey(targetRows, keyField), keyField);
            && Lists(missing, rows, MissingEntry(targetRows, keyField))
            && |missing| == |Listed(rows, MissingEntry(targetRows, keyField))|
            && forall k, s :: Missing(k, s) in missing <==>
                 && s in rows && Lookup(s, keyField) == Some(k)
                 && forall t :: t in targetRows ==> Lookup(t, keyField) != Some(k)
  {
    var entry, targets := MissingEntry(targetRows, keyField), ByKey(targetRows, keyField);
    MissingListed(rows, targetRows, keyField);
    ListedCount(AllMissing(rows, targets, keyField), rows, entry);
    ListedEntries(AllMissing(rows, targets, keyField), rows, entry);
  }

  lemma {:induction false} MissingListed(rows: seq<Columns>, targetRows: seq<Columns>, keyField: string)
    ensures Lists(AllMissing(rows, ByKey(targetRows, keyField), keyField), rows, MissingEntry(targetRows, keyField))
  {
    if rows == [] {
      NothingListed(MissingEntry(targetRows, keyField));
    } else {
      var front, last := rows[..|rows| - 1], rows[|rows| - 1];
      MissingListed(front, targetRows, keyField);
      MissingOneMore(front, last, targetRows, keyField);
      assert rows == front + [last];
    }
  }

  lemma MissingOneMore(front: seq<Columns>, last: Columns, targetRows: seq<Columns>, keyField: string)
    requires Lists(AllMissing(front, ByKey(targetRows, keyField), keyField), front, MissingEntry(targetRows, keyField))
    ensures var rows := front + [last];
            Lists(AllMissing(rows, ByKey(targetRows, keyField), keyField), rows, MissingEntry(targetRows, keyField))
  {
    var targets := ByKey(targetRows, keyField);
    MissingOfRow(last, targetRows, keyField);
    OneMoreListed(AllMissing(front, targets, keyField), front, MissingEntry(targetRows, keyField), last);
    assert (front + [last])[..|front|] == front;
  }

  /**
   The stale list has one entry for each source row without a key, and for each whose last target row of
   its key differs from it in a compared field, in their order.
   */
  lemma StaleAre(
    rows: seq<Columns>, targetRows: seq<Columns>, keyField: string, fields: seq<string>)
    ensures var stale := AllStale(rows, ByKey(targetRows, keyField), keyField, fields);
            && Lists(stale, rows, StaleEntry(targetRows, keyField, fields))
            && |stale| == |Listed(rows, StaleEntry(targetRows, keyField, fields))|
            && forall e :: e in stale <==> e.source in rows && IsStaleEntry(e, e.source, targetRows, keyField, fields)
  {
    var entry, targets := StaleEntry(targetRows, keyField, fields), ByKey(targetRows, keyField);
    var stale := AllStale(rows, targets, keyField, fields);
    StaleListed(rows, targetRows, keyField, fields);
    ListedCount(stale, rows, entry);
    ListedEntries(stale, rows, entry);
    forall e ensures e in stale <==> e.source in rows && IsStaleEntry(e, e.source, targetRows, keyField, fields) {
      if e in stale {
        var row :| row in rows && entry(row) == Some(e);
        StaleOfRow(row, targetRows, keyField, fields);
      }
      StaleOfRow(e.source, targetRows, keyField, fields);
    }
  }

  lemma {:induction false} StaleListed(
    rows: seq<Columns>, targetRows: seq<Columns>, keyField: string, fields: seq<string>)
    ensures Lists(AllStale(rows, ByKey(targetRows, keyField), keyField, fields), rows,
                  StaleEntry(targetRows, keyField, fields))
  {
    if rows == [] {
      NothingListed(StaleEntry(targetRows, keyField, fields));
    } else {
      var front, last := rows[..|rows| - 1], rows[|rows| - 1];
      StaleListed(front, targetRows, keyField, fields);
      StaleOneMore(front, last, targetRows, keyField, fields);
      assert rows == front + [last];
    }
  }

  lemma StaleOneMore(
    front: seq<Columns>, last: Columns, targetRows: seq<Columns>, keyField: string, fields: seq<string>)
    requires Lists(AllStale(front, ByKey(targetRows, keyField), keyField, fields), front,
                   StaleEntry(targetRows, keyField, fields))
    ensures Lists(AllStale(front + [last], ByKey(targetRows, keyField), keyField, fields), front + [last],
                  StaleEntry(targetRows, keyField, fields))
  {
    var targets := ByKey(targetRows, keyField);
    StaleOfRow(last, targetRows, keyField, fields);
    OneMoreListed(AllStale(front, targets, keyField, fields), front, StaleEntry(targetRows, keyField, fields), last);
    assert (front + [last])[..|front|] == front;
  }

  /** A row is reported neither missing nor stale exactly when the target row of its key agrees with it. */
  lemma RowVerdict(source: Columns, targetRows: seq<Columns>, keyField: string, fields: seq<string>)
    ensures var targets := ByKey(targetRows, keyField);
            MissingOf(source, targets, keyField) == [] && StaleOf(source, targets, keyField, fields) == []
            <==> Matched(source, targetRows, keyField, fields)
  {
    var targets := ByKey(targetRows, keyField);
    var key := Lookup(source, keyField);
    if key.Some? {
      var i := ByKeyIsLastRow(targetRows, keyField, key.value);
      if key.value in targets {
        MismatchesEmpty(source, targets[key.value], fields);
        forall j | LastOfItsKey(targetRows, j, keyField) && Agree(source, targetRows[j], keyField, fields)
          ensures j == i
        {
        }
      }
    }
  }

  lemma {:induction false} NoDriftMeansAllMatched(rows: seq<Columns>, targetRows: seq<Columns>, keyField: string,
      fields: seq<string>)
    ensures var targets := ByKey(targetRows, keyField);
            |AllMissing(rows, targets, keyField)| + |AllStale(rows, targets, keyField, fields)| == 0
            <==> forall i :: 0 <= i < |rows| ==> Matched(rows[i], targetRows, keyField, fields)
  {
    if rows != [] {
      var front, last := rows[..|rows| - 1], rows[|rows| - 1];
      var targets := ByKey(targetRows, keyField);
      NoDriftMeansAllMatched(front, targetRows, keyField, fields);
      RowVerdict(last, targetRows, keyField, fields);
      assert |AllMissing(rows, targets, keyField)|
             == |AllMissing(front, targets, keyField)| + |MissingOf(last, targets, keyField)|;
      assert |AllStale(rows, targets, keyField, fields)|
             == |AllStale(front, targets, keyField, fields)| + |StaleOf(last, targets, keyField, fields)|;
      AllAndOneMore(front, last, targetRows, keyField, fields);
      assert rows == front + [last];
    }
  }

  lemma AllAndOneMore(
    front: seq<Columns>, last: Columns, targetRows: seq<Columns>, keyField: string, fields: seq<string>)
    ensures var rows := front + [last];
            (forall i :: 0 <= i < |rows| ==> Matched(rows[i], targetRows, keyField, fields))
            <==> (forall i :: 0 <= i < |front| ==> Matched(front[i], targetRows, keyField, fields))
                 && Matched(last, targetRows, keyField, fields)
  {
    var rows := front + [last];
    assert rows[|front|] == last;
    assert forall i :: 0 <= i < |front| ==> rows[i] == front[i];
  }

  // ----- the check -----

  function Bodies(rows: seq<Row>): (r: seq<Columns>)
    ensures |r| == |rows|
  {
    seq(|rows|, i requires 0 <= i < |rows| => rows[i].body)
  }

  /** Where the scan starts: the key the caller gave, or else the stored checkpoint's last key. */
  function ResumeKey(
    saved: map<string, Checkpoint>, id: string, reset: bool, given: Option<string>, hash: string)
    : Result<Option<string>, CheckError>
  {
    if id == "" || reset || id !in saved then Ok(given)
    else if saved[id].queryHash != "" && saved[id].queryHash != hash then Err(CheckpointOfOtherQuery)
    else if Truthy(given).None? then Ok(Truthy(saved[id].lastKey))
    else Ok(given)
  }

  /** A check that resumed, or whose scan did not finish, covers only a part. */
  function CheckStatusOf(resume: Option<string>, completed: bool): string {
    if Truthy(resume).Some? || !completed then CHECK_PARTIAL else CHECK_COMPLETE
  }

  /** What a check is asked to do. */
  datatype Request = Request(
    keyField: string, compareFields: seq<string>, queryHash: string,
    pageSize: int, targetPageSize: int, maxPages: int,
    resumeAfterKey: Option<string>, checkpointId: string, resetCheckpoint: bool)

  /** The report, given the two scans. */
  function ReportOf(q: Request, resume: Option<string>, source: Outcome<string, Columns>,
      target: Outcome<SortValues, Columns>)
    : QueryReport
    requires q.pageSize >= 1
  {
    var rows := Bodies(source.scan.rows);
    var targets := ByKey(Documents(target.scan.rows, q.keyField), q.keyField);
    QueryReport(|rows|, AllMissing(rows, targets, q.keyField), AllStale(rows, targets, q.keyField, q.compareFields),
                CheckStatusOf(resume, source.stop == Exhausted), FinalEvidence(source, Bounded(q.pageSize), resume))
  }

  function Verdict(
    q: Request, saved: map<string, Checkpoint>,
    klt: (string, string) -> bool, tables: seq<seq<Row>>,
    slt: (SortValues, SortValues) -> bool, results: seq<seq<Hit>>): Result<QueryReport, CheckError>
  {
    match ResumeKey(saved, q.checkpointId, q.resetCheckpoint, q.resumeAfterKey, q.queryHash)
    case Err(e) => Err(e)
    case Ok(resume) =>
      if q.pageSize < 1 then Err(ScanFailed(InvalidPageSize))
      else
        var source := Walk(klt, tables, Bounded(q.pageSize), q.maxPages, Start(Truthy(resume)));
        if source.stop == SourceFailed then Err(ScanFailed(SourceUnavailable))
        else if q.targetPageSize < 1 then Err(SearchFailed(InvalidTargetPageSize))
        else
          var target := Walk(slt, results, Bounded(q.targetPageSize), 0, Start(None));
          if target.stop == SourceFailed then Err(SearchFailed(TargetUnavailable))
          else Ok(ReportOf(q, resume, source, target))
  }

  /** The checkpoint a finished scan leaves: unlike the pages' checkpoints, it is stored even if nothing was read. */
  function FinalCheckpoint(q: Request, saved: map<string, Checkpoint>, source: Outcome<string, Columns>,
      resume: Option<string>)
    : map<string, Checkpoint>
    requires q.pageSize >= 1
  {
    if q.checkpointId == "" then saved
    else saved[q.checkpointId := CheckpointOf(q.queryHash, FinalEvidence(source, Bounded(q.pageSize), resume))]
  }

  /** The checkpoints a check leaves: of its last page if the scan failed, of the whole scan otherwise. */
  function SavedAfter(
    q: Request, saved: map<string, Checkpoint>, klt: (string, string) -> bool, tables: seq<seq<Row>>)
    : map<string, Checkpoint>
  {
    var resume := ResumeKey(saved, q.checkpointId, q.resetCheckpoint, q.resumeAfterKey, q.queryHash);
    if resume.Err? || q.pageSize < 1 then saved
    else
      var size := Bounded(q.pageSize);
      var source := Walk(klt, tables, size, q.maxPages, Start(Truthy(resume.value)));
      if source.stop == SourceFailed
      then ProgressSaved(saved, q.checkpointId, q.queryHash, source.scan, size, resume.value)
      else FinalCheckpoint(q, saved, source, resume.value)
  }

  method LoadResumeKey(q: Request, store: CheckpointStore) returns (r: Result<Option<string>, CheckError>)
    ensures r == ResumeKey(store.saved, q.checkpointId, q.resetCheckpoint, q.resumeAfterKey, q.queryHash)
  {
    var resume := q.resumeAfterKey;
    if q.checkpointId != "" && !q.resetCheckpoint && q.checkpointId in store.saved {
      var loaded := store.saved[q.checkpointId];
      if loaded.queryHash != "" && loaded.queryHash != q.queryHash {
        return Err(CheckpointOfOtherQuery);
      }
      if Truthy(resume).None? {
        resume := Truthy(loaded.lastKey);
      }
    }
    r := Ok(resume);
  }

  method CheckQueryInvariant(
    q: Request, store: CheckpointStore,
    klt: (string, string) -> bool, tables: seq<seq<Row>>,
    slt: (SortValues, SortValues) -> bool, results: seq<seq<Hit>>)
    returns (r: Result<QueryReport, CheckError>)
    modifies store
    ensures r == Verdict(q, old(store.saved), klt, tables, slt, results)
    ensures store.saved == SavedAfter(q, old(store.saved), klt, tables)
  {
    var start := LoadResumeKey(q, store);
    if start.Err? {
      return Err(start.error);
    }
    var resume := start.value;
    var scan := ExecuteSourceQueryKeyset(
      klt, tables, q.pageSize, resume, q.maxPages, store, q.checkpointId, q.queryHash);
    if scan.Err? {
      return Err(ScanFailed(scan.error));
    }
    ghost var source := Walk(klt, tables, Bounded(q.pageSize), q.maxPages, Start(Truthy(resume)));
    assert scan.value == ScanResult(source.scan.rows, FinalEvidence(source, Bounded(q.pageSize), resume));
    store.SaveEvidence(q.checkpointId, q.queryHash, scan.value.evidence);
    assert store.saved == FinalCheckpoint(q, old(store.saved), source, resume);
    var found := PaginatedSearch(slt, results, q.targetPageSize, q.keyField);
    if found.Err? {
      return Err(SearchFailed(found.error));
    }
    var checkStatus := CHECK_COMPLETE;
    if Truthy(resume).Some? || !scan.value.evidence.completed {
      checkStatus := CHECK_PARTIAL;
    }
    var report := CompareQueryResults(
      Bodies(scan.value.rows), found.value, q.keyField, q.compareFields, checkStatus, scan.value.evidence);
    assert report == ReportOf(q, resume, source, Walk(slt, results, Bounded(q.targetPageSize), 0, Start(None)));
    r := Ok(report);
  }

  // ----- what a verdict means -----

  /** In each table the key column is the column the rows are sorted by. */
  ghost predicate KeyedBy(tables: seq<seq<Row>>, keyField: string) {
    forall i, row :: 0 <= i < |tables| && row in tables[i] ==> Lookup(row.body, keyField) == Some(row.cursor)
  }

  ghost predicate SortedResults(slt: (SortValues, SortValues) -> bool, results: seq<seq<Hit>>) {
    forall i :: 0 <= i < |results| ==> Sorted(slt, results[i])
  }

  /**
   The scan read the row, which the source held at one of the scan's page queries, and the target held
   a document agreeing with it at one of the search's requests.
   */
  ghost predicate Observed(
    row: Row, q: Request, tables: seq<seq<Row>>, results: seq<seq<Hit>>,
    source: Outcome<string, Columns>, target: Outcome<SortValues, Columns>)
  {
    && row in source.scan.rows
    && (exists i :: 0 <= i < source.queries && i < |tables| && row in tables[i])
    && (exists j, hit :: 0 <= j < target.queries && j < |results| && hit in results[j]
          && Lookup(Document(hit, q.keyField), q.keyField) == Some(row.cursor)
          && Agree(row.body, Document(hit, q.keyField), q.keyField, q.compareFields))
  }

  /**
   A healthy report is sound even while both stores change: the check did not resume, its scan
   finished, and for every key that was in the source at each page query of the scan, a row with that
   key was read, and at one of the search's requests the target held a document with the same key and
   equal compare fields.
   */
  lemma HealthyIsSound(
    q: Request, saved: map<string, Checkpoint>,
    klt: (string, string) -> bool, tables: seq<seq<Row>>,
    slt: (SortValues, SortValues) -> bool, results: seq<seq<Hit>>)
    requires StrictTotalOrder(klt) && StrictTotalOrder(slt)
    requires SortedTables(klt, tables) && SortedResults(slt, results) && KeyedBy(tables, q.keyField)
    ensures IsHealthy(Verdict(q, saved, klt, tables, slt, results)) ==>
              var source := Walk(klt, tables, Bounded(q.pageSize), q.maxPages, Start(None));
              var target := Walk(slt, results, Bounded(q.targetPageSize), 0, Start(None));
              && ResumeKey(saved, q.checkpointId, q.resetCheckpoint, q.resumeAfterKey, q.queryHash).Ok?
              && Truthy(ResumeKey(saved, q.checkpointId, q.resetCheckpoint, q.resumeAfterKey, q.queryHash).value).None?
              && source.stop == Exhausted && source.queries <= |tables|
              && forall key :: HasAlways(tables[..source.queries], key) ==>
                   exists row: Row :: row.cursor == key && Observed(row, q, tables, results, source, target)
  {
    if IsHealthy(Verdict(q, saved, klt, tables, slt, results)) {
      HealthyMeansFinishedAndMatched(q, saved, klt, tables, slt, results);
      FinishedScanIsObserved(q, klt, tables, slt, results);
    }
  }

  /** The check ended with a report, and the report is healthy. */
  predicate IsHealthy(r: Result<QueryReport, CheckError>) {
    r.Ok? && r.value.Status() == Healthy
  }

  /** A healthy report comes from an unresumed, finished scan whose every row is matched. */
  lemma HealthyMeansFinishedAndMatched(
    q: Request, saved: map<string, Checkpoint>,
    klt: (string, string) -> bool, tables: seq<seq<Row>>,
    slt: (SortValues, SortValues) -> bool, results: seq<seq<Hit>>)
    ensures IsHealthy(Verdict(q, saved, klt, tables, slt, results)) ==>
              && q.pageSize >= 1 && q.targetPageSize >= 1
              && ResumeKey(saved, q.checkpointId, q.resetCheckpoint, q.resumeAfterKey, q.queryHash).Ok?
              && Truthy(ResumeKey(saved, q.checkpointId, q.resetCheckpoint, q.resumeAfterKey, q.queryHash).value).None?
              && Walk(klt, tables, Bounded(q.pageSize), q.maxPages, Start(None)).stop == Exhausted
              && var rows := Walk(klt, tables, Bounded(q.pageSize), q.maxPages, Start(None)).scan.rows;
                 var target := Walk(slt, results, Bounded(q.targetPageSize), 0, Start(None));
                 var docs := Documents(target.scan.rows, q.keyField);
                 forall i :: 0 <= i < |rows| ==> Matched(Bodies(rows)[i], docs, q.keyField, q.compareFields)
  {
    if IsHealthy(Verdict(q, saved, klt, tables, slt, results)) {
      var source := Walk(klt, tables, Bounded(q.pageSize), q.maxPages, Start(None));
      var target := Walk(slt, results, Bounded(q.targetPageSize), 0, Start(None));
      var docs := Documents(target.scan.rows, q.keyField);
      NoDriftMeansAllMatched(Bodies(source.scan.rows), docs, q.keyField, q.compareFields);
    }
  }

  lemma FinishedScanIsObserved(
    q: Request, klt: (string, string) -> bool, tables: seq<seq<Row>>,
    slt: (SortValues, SortValues) -> bool, results: seq<seq<Hit>>)
    requires StrictTotalOrder(klt) && StrictTotalOrder(slt)
    requires SortedTables(klt, tables) && SortedResults(slt, results) && KeyedBy(tables, q.keyField)
    requires q.pageSize >= 1 && q.targetPageSize >= 1
    requires Walk(klt, tables, Bounded(q.pageSize), q.maxPages, Start(None)).stop == Exhausted
    requires var rows := Walk(klt, tables, Bounded(q.pageSize), q.maxPages, Start(None)).scan.rows;
             var docs := Documents(Walk(slt, results, Bounded(q.targetPageSize), 0, Start(None)).scan.rows, q.keyField);
             forall i :: 0 <= i < |rows| ==> Matched(Bodies(rows)[i], docs, q.keyField, q.compareFields)
    ensures var source := Walk(klt, tables, Bounded(q.pageSize), q.maxPages, Start(None));
            var target := Walk(slt, results, Bounded(q.targetPageSize), 0, Start(None));
            && source.queries <= |tables|
            && forall key :: HasAlways(tables[..source.queries], key) ==>
                 exists row: Row :: row.cursor == key && Observed(row, q, tables, results, source, target)
  {
    var source := Walk(klt, tables, Bounded(q.pageSize), q.maxPages, Start(None));
    var target := Walk(slt, results, Bounded(q.targetPageSize), 0, Start(None));
    ScanOverMovingTable(klt, tables, Bounded(q.pageSize), q.maxPages, None);
    forall key | HasAlways(tables[..source.queries], key)
      ensures exists row: Row :: row.cursor == key && Observed(row, q, tables, results, source, target)
    {
      assert Has(source.scan.rows, key);
      var k :| 0 <= k < |source.scan.rows| && source.scan.rows[k].cursor == key;
      assert Bodies(source.scan.rows)[k] == source.scan.rows[k].body;
      assert source.scan.rows[k] in source.scan.rows;
      MatchedRowIsObserved(q, tables, slt, results, source, source.scan.rows[k]);
    }
  }

  lemma MatchedRowIsObserved(
    q: Request, tables: seq<seq<Row>>, slt: (SortValues, SortValues) -> bool, results: seq<seq<Hit>>,
    source: Outcome<string, Columns>, row: Row)
    requires StrictTotalOrder(slt) && SortedResults(slt, results)
    requires row in source.scan.rows && exists i :: 0 <= i < source.queries && i < |tables| && row in tables[i]
    requires Lookup(row.body, q.keyField) == Some(row.cursor)
    requires q.targetPageSize >= 1
    requires var target := Walk(slt, results, Bounded(q.targetPageSize), 0, Start(None));
             Matched(row.body, Documents(target.scan.rows, q.keyField), q.keyField, q.compareFields)
    ensures Observed(row, q, tables, results, source, Walk(slt, results, Bounded(q.targetPageSize), 0, Start(None)))
  {
    var target := Walk(slt, results, Bounded(q.targetPageSize), 0, Start(None));
    var docs := Documents(target.scan.rows, q.keyField);
    var d :| LastOfItsKey(docs, d, q.keyField) && Agree(row.body, docs[d], q.keyField, q.compareFields);
    var hit := target.scan.rows[d];
    WalkReadsRealRows(slt, results, Bounded(q.targetPageSize), 0, Start(None), hit);
    assert docs[d] == Document(hit, q.keyField);
  }

  // ----- in the terms of the request -----

  /** There is a checkpoint for the check to look at. */
  ghost predicate HasCheckpoint(q: Request, saved: map<string, Checkpoint>) {
    q.checkpointId != "" && !q.resetCheckpoint && q.checkpointId in saved
  }

  /** It was left by a check of another query. */
  ghost predicate ForeignCheckpoint(q: Request, saved: map<string, Checkpoint>) {
    HasCheckpoint(q, saved) && saved[q.checkpointId].queryHash !in {"", q.queryHash}
  }

  /** The check starts behind a key: a given one, or the checkpoint's. */
  ghost predicate Resumes(q: Request, saved: map<string, Checkpoint>) {
    || q.resumeAfterKey !in {None, Some("")}
    || (HasCheckpoint(q, saved) && saved[q.checkpointId].lastKey !in {None, Some("")})
  }

  /** Where a check starts: a given key counts before the checkpoint's, and an empty one of either not at all. */
  lemma WhereTheCheckStarts(q: Request, saved: map<string, Checkpoint>)
    ensures var start := ResumeKey(saved, q.checkpointId, q.resetCheckpoint, q.resumeAfterKey, q.queryHash);
            && (start == Err(CheckpointOfOtherQuery) <==> ForeignCheckpoint(q, saved))
            && (start.Ok? <==> !ForeignCheckpoint(q, saved))
            && (start.Ok? && q.resumeAfterKey !in {None, Some("")} ==> start.value == q.resumeAfterKey)
            && (start.Ok? && q.resumeAfterKey in {None, Some("")} && Resumes(q, saved) ==>
                  start.value == saved[q.checkpointId].lastKey)
            && (start.Ok? && !Resumes(q, saved) ==> start.value in {None, Some("")})
  {
  }

  /** The pages the check may read have room for more than the whole table. */
  ghost predicate RoomForMore(q: Request, t: seq<Row>) {
    q.maxPages <= 0 || |t| < q.maxPages * if q.pageSize <= 5000 then q.pageSize else 5000
  }

  ghost predicate AllMatched(q: Request, t: seq<Row>, hits: seq<Hit>) {
    forall i :: 0 <= i < |t| ==> Matched(t[i].body, Documents(hits, q.keyField), q.keyField, q.compareFields)
  }

  /**
   Over stores that do not change, the verdict is exact: the report is healthy if and only if the
   check was not resumed, its pages had room for more than the whole table, and every source row is
   matched by the last target document of its key. If only the last fails, it says that drift was
   detected; otherwise it says that it does not know.
   */
  lemma VerdictOverStableStores(
    q: Request, saved: map<string, Checkpoint>,
    klt: (string, string) -> bool, tables: seq<seq<Row>>, t: seq<Row>,
    slt: (SortValues, SortValues) -> bool, results: seq<seq<Hit>>, hits: seq<Hit>)
    requires StrictTotalOrder(klt) && Sorted(klt, t) && Stable(tables, t)
    requires StrictTotalOrder(slt) && Sorted(slt, hits)
    requires |results| > |hits| && forall i :: 0 <= i < |results| ==> results[i] == hits
    requires q.pageSize >= 1 && q.targetPageSize >= 1 && !ForeignCheckpoint(q, saved)
    ensures var r := Verdict(q, saved, klt, tables, slt, results);
            && r.Ok?
            && r.value.Status() == if Resumes(q, saved) || !RoomForMore(q, t) then Unknown
                                   else if AllMatched(q, t, hits) then Healthy
                                   else DriftDetected
  {
    WhereTheCheckStarts(q, saved);
    VerdictFrom(q, saved, klt, tables, t, slt, results, hits);
  }

  /** The errors of a check, in the order in which they are found. */
  lemma ErrorsInOrder(
    q: Request, saved: map<string, Checkpoint>,
    klt: (string, string) -> bool, tables: seq<seq<Row>>,
    slt: (SortValues, SortValues) -> bool, results: seq<seq<Hit>>)
    ensures var r := Verdict(q, saved, klt, tables, slt, results);
            && (r == Err(CheckpointOfOtherQuery) <==> ForeignCheckpoint(q, saved))
            && (r == Err(ScanFailed(InvalidPageSize)) <==> !ForeignCheckpoint(q, saved) && q.pageSize < 1)
            && (r == Err(SearchFailed(InvalidTargetPageSize)) ==> q.targetPageSize < 1)
            && (q.targetPageSize < 1 ==> r.Err?)
            && (tables == [] && !ForeignCheckpoint(q, saved) && q.pageSize >= 1 ==>
                  r == Err(ScanFailed(SourceUnavailable)))
            && (results == [] ==> r.Err?)
  {
  }

  lemma VerdictFrom(
    q: Request, saved: map<string, Checkpoint>,
    klt: (string, string) -> bool, tables: seq<seq<Row>>, t: seq<Row>,
    slt: (SortValues, SortValues) -> bool, results: seq<seq<Hit>>, hits: seq<Hit>)
    requires StrictTotalOrder(klt) && Sorted(klt, t) && Stable(tables, t)
    requires StrictTotalOrder(slt) && Sorted(slt, hits)
    requires |results| > |hits| && forall i :: 0 <= i < |results| ==> results[i] == hits
    requires q.pageSize >= 1 && q.targetPageSize >= 1
    requires ResumeKey(saved, q.checkpointId, q.resetCheckpoint, q.resumeAfterKey, q.queryHash).Ok?
    ensures var resume := ResumeKey(saved, q.checkpointId, q.resetCheckpoint, q.resumeAfterKey, q.queryHash).value;
            var r := Verdict(q, saved, klt, tables, slt, results);
            && r.Ok?
            && r.value.Status() == if Truthy(resume).Some? || !RoomForMore(q, t) then Unknown
                                   else if AllMatched(q, t, hits) then Healthy
                                   else DriftDetected
  {
    var resume := ResumeKey(saved, q.checkpointId, q.resetCheckpoint, q.resumeAfterKey, q.queryHash).value;
    RunOverFixedTable(klt, tables, t, Bounded(q.pageSize), q.maxPages, resume);
    StableResultIsReadInFull(slt, results, hits, Bounded(q.targetPageSize));
    var source := Walk(klt, tables, Bounded(q.pageSize), q.maxPages, Start(Truthy(resume)));
    var target := Walk(slt, results, Bounded(q.targetPageSize), 0, Start(None));
    assert Verdict(q, saved, klt, tables, slt, results) == Ok(ReportOf(q, resume, source, target));
    ReportIsHealthyIff(q, resume, source, target);
    if Truthy(resume).None? {
      assert Select(klt, t, None) == t by { SelectLength(klt, t, None); }
      assert source.stop == Exhausted ==> source.scan.rows == t;
    }
  }

  lemma ReportIsHealthyIff(
    q: Request, resume: Option<string>, source: Outcome<string, Columns>, target: Outcome<SortValues, Columns>)
    requires q.pageSize >= 1
    ensures ReportOf(q, resume, source, target).Status()
            == if Truthy(resume).Some? || source.stop != Exhausted then Unknown
               else if AllMatched(q, source.scan.rows, target.scan.rows) then Healthy
               else DriftDetected
  {
    var rows := Bodies(source.scan.rows);
    NoDriftMeansAllMatched(rows, Documents(target.scan.rows, q.keyField), q.keyField, q.compareFields);
    assert forall i :: 0 <= i < |rows| ==> rows[i] == source.scan.rows[i].body;
  }

  /** The check has room for its only row, the one with the empty key, and the row is matched. */
  ghost predicate LoneEmptyKeyMatched(q: Request, t: seq<Row>, hits: seq<Hit>) {
    && |t| == 1 && t[0].cursor == "" && RoomForMore(q, t)
    && Matched(t[0].body, Documents(hits, q.keyField), q.keyField, q.compareFields)
  }

  /**
   A checkpoint outlives its scan. Of two checks with the same new checkpoint id, over stores that do
   not change, the second resumes behind the last key of the first, even if the first had finished, and
   then is Unknown, whatever the target holds. An empty last key is not resumed from. So the second
   check is healthy if and only if the source holds no rows at all, or a single one with the empty key,
   for which the first check was healthy too.
   */
  lemma SecondCheckIsHealthyIff(
    q: Request, saved: map<string, Checkpoint>,
    klt: (string, string) -> bool, tables: seq<seq<Row>>, t: seq<Row>,
    slt: (SortValues, SortValues) -> bool, results: seq<seq<Hit>>, hits: seq<Hit>)
    requires StrictTotalOrder(klt) && Sorted(klt, t) && Stable(tables, t) && EmptyFirst(klt, t)
    requires StrictTotalOrder(slt) && Sorted(slt, hits)
    requires |results| > |hits| && forall i :: 0 <= i < |results| ==> results[i] == hits
    requires q.pageSize >= 1 && q.targetPageSize >= 1
    requires q.checkpointId != "" && q.checkpointId !in saved && !q.resetCheckpoint && q.resumeAfterKey.None?
    ensures var first := Walk(klt, tables, Bounded(q.pageSize), q.maxPages, Start(None));
            var second := Verdict(q, SavedAfter(q, saved, klt, tables), klt, tables, slt, results);
            && Verdict(q, saved, klt, tables, slt, results).Ok?
            && second.Ok?
            && (second.value.Status() == Healthy <==> t == [] || LoneEmptyKeyMatched(q, t, hits))
            && (Truthy(first.scan.last).Some? ==> second.value.Status() == Unknown)
            && (Truthy(first.scan.last).Some? <==>
                  t != [] && !(t[0].cursor == "" && (|t| == 1 || q.maxPages * Bounded(q.pageSize) == 1)))
  {
    var size := Bounded(q.pageSize);
    var first := Walk(klt, tables, size, q.maxPages, Start(None));
    FirstRunEndsAt(klt, tables, t, size, q.maxPages);
    CheckResumesAt(q, saved, None, klt, tables, t, slt, results, hits);
    assert SavedAfter(q, saved, klt, tables) == FinalCheckpoint(q, saved, first, None);
    CheckResumesAt(q, SavedAfter(q, saved, klt, tables), Truthy(first.scan.last), klt, tables, t, slt, results, hits);
    RoomForOneRow(q, t, hits);
  }

  /** A check that finds everything matched, and its pages to have room for more than the table. */
  ghost predicate RoomAndMatched(q: Request, t: seq<Row>, hits: seq<Hit>) {
    RoomForMore(q, t) && AllMatched(q, t, hits)
  }

  lemma RoomForOneRow(q: Request, t: seq<Row>, hits: seq<Hit>)
    requires q.pageSize >= 1
    ensures t == [] ==> RoomAndMatched(q, t, hits)
    ensures |t| > 0 && q.maxPages * Bounded(q.pageSize) == 1 ==> !RoomAndMatched(q, t, hits)
    ensures |t| == 1 && t[0].cursor == "" ==> (RoomAndMatched(q, t, hits) <==> LoneEmptyKeyMatched(q, t, hits))
  {
    if q.maxPages > 0 {
      ProductAtLeast(q.maxPages, Bounded(q.pageSize));
    } else {
      ProductAtMost(q.maxPages, Bounded(q.pageSize));
    }
  }

  /** The verdict over stable stores, given where the check resumes. */
  lemma CheckResumesAt(
    q: Request, saved: map<string, Checkpoint>, resume: Option<string>,
    klt: (string, string) -> bool, tables: seq<seq<Row>>, t: seq<Row>,
    slt: (SortValues, SortValues) -> bool, results: seq<seq<Hit>>, hits: seq<Hit>)
    requires StrictTotalOrder(klt) && Sorted(klt, t) && Stable(tables, t)
    requires StrictTotalOrder(slt) && Sorted(slt, hits)
    requires |results| > |hits| && forall i :: 0 <= i < |results| ==> results[i] == hits
    requires q.pageSize >= 1 && q.targetPageSize >= 1
    requires ResumeKey(saved, q.checkpointId, q.resetCheckpoint, q.resumeAfterKey, q.queryHash) == Ok(resume)
    ensures var r := Verdict(q, saved, klt, tables, slt, results);
            && r.Ok?
            && (r.value.Status() == Healthy <==> Truthy(resume).None? && RoomAndMatched(q, t, hits))
            && (Truthy(resume).Some? ==> r.value.Status() == Unknown)
  {
    VerdictFrom(q, saved, klt, tables, t, slt, results, hits);
    if Truthy(resume).Some? {
      ResumedCheckIsPartial(q, saved, klt, tables, slt, results);
    }
  }

  /** Where the first run over a fixed table ends: at no key, at the empty key, or at one to resume from. */
  lemma FirstRunEndsAt(klt: (string, string) -> bool, tables: seq<seq<Row>>, t: seq<Row>, size: nat, limit: int)
    requires StrictTotalOrder(klt) && Sorted(klt, t) && Stable(tables, t) && EmptyFirst(klt, t) && size > 0
    ensures var last := Walk(klt, tables, size, limit, Start(None)).scan.last;
            && (last.None? <==> t == [])
            && (last == Some("") <==> t != [] && t[0].cursor == "" && (|t| == 1 || limit * size == 1))
  {
    var r := Walk(klt, tables, size, limit, Start(None)).scan;
    RunOverFixedTable(klt, tables, t, size, limit, None);
    RunEndsAtLastRow(klt, tables, size, limit, Start(None), None);
    SelectLength(klt, t, None);
    if limit > 0 {
      ProductAtLeast(limit, size);
    } else {
      ProductAtMost(limit, size);
    }
    if t != [] {
      EmptyOnlyFirst(klt, t, None, |r.rows|);
    }
  }

  lemma ProductAtMost(limit: int, size: nat)
    requires limit <= 0
    ensures limit * size <= 0
  {
  }

  // ----- the checkpoint a check leaves -----

  /** The checkpoint tells whose query was scanned, whether to the end, and the last key read. */
  ghost predicate TellsScan(c: Checkpoint, q: Request, source: Outcome<string, Columns>) {
    && c.queryHash == q.queryHash && c.lastKey == source.scan.last
    && c.status == (if source.stop == Exhausted then "complete" else "inProgress")
    && c.rows == |source.scan.rows| && c.pages == source.scan.pages
    && c.stopReason == match source.stop
                       case Exhausted => "exhausted"
                       case PageLimit => "max_pages"
                       case SourceFailed => "page"
  }

  /** A check leaves a checkpoint under its id, unless its scan failed before the first page; no other changes. */
  lemma CheckpointLeft(q: Request, saved: map<string, Checkpoint>, klt: (string, string) -> bool, tables: seq<seq<Row>>)
    requires q.pageSize >= 1 && !ForeignCheckpoint(q, saved)
    ensures var resume := ResumeKey(saved, q.checkpointId, q.resetCheckpoint, q.resumeAfterKey, q.queryHash);
            var after := SavedAfter(q, saved, klt, tables);
            && resume.Ok?
            && var source := Walk(klt, tables, Bounded(q.pageSize), q.maxPages, Start(Truthy(resume.value)));
               && (q.checkpointId == "" || (source.stop == SourceFailed && source.scan.pages == 0) ==> after == saved)
               && (q.checkpointId != "" && !(source.stop == SourceFailed && source.scan.pages == 0) ==>
                     && q.checkpointId in after && TellsScan(after[q.checkpointId], q, source)
                     && after == saved[q.checkpointId := after[q.checkpointId]])
  {
    WhereTheCheckStarts(q, saved);
  }

  /**
   A checkpoint keeps queries apart: once a check of one query has left its checkpoint, a check of
   another query with the same id fails, and leaves everything as it is, unless it resets the checkpoint.
   */
  lemma OtherQueryIsRefused(
    q: Request, saved: map<string, Checkpoint>, klt: (string, string) -> bool, tables: seq<seq<Row>>,
    other: Request, others: seq<seq<Row>>, slt: (SortValues, SortValues) -> bool, results: seq<seq<Hit>>)
    requires q.pageSize >= 1 && !ForeignCheckpoint(q, saved) && q.queryHash != ""
    requires SavedAfter(q, saved, klt, tables) != saved
    requires other.checkpointId == q.checkpointId && other.queryHash != q.queryHash && !other.resetCheckpoint
    ensures var left := SavedAfter(q, saved, klt, tables);
            && Verdict(other, left, klt, others, slt, results) == Err(CheckpointOfOtherQuery)
            && SavedAfter(other, left, klt, others) == left
  {
    CheckpointLeft(q, saved, klt, tables);
    WhereTheCheckStarts(other, SavedAfter(q, saved, klt, tables));
  }

  lemma ResumedCheckIsPartial(
    q: Request, saved: map<string, Checkpoint>,
    klt: (string, string) -> bool, tables: seq<seq<Row>>,
    slt: (SortValues, SortValues) -> bool, results: seq<seq<Hit>>)
    requires var resume := ResumeKey(saved, q.checkpointId, q.resetCheckpoint, q.resumeAfterKey, q.queryHash);
             resume.Ok? && Truthy(resume.value).Some?
    ensures var r := Verdict(q, saved, klt, tables, slt, results); r.Ok? ==> r.value.Status() == Unknown
  {
  }
}
