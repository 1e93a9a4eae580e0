/**
 The keyset scan of a source query (`db.execute_source_query_keyset`), the checkpoints it leaves
 behind page by page, and the runs that resume from them.
 */
module KeysetScan {
  import opened Common
  import opened Ordering
  import opened Paging
  import Watermark

  /** A result row: column names to values, each value as its text; SQL null is `None`. */
  type Columns = map<string, Option<string>>

  type Row = Item<string, Columns>

  const MAX_PAGE_SIZE := 5000

  datatype ScanError = InvalidPageSize | SourceUnavailable

  /** The bookkeeping of a scan (`query_scan_evidence`). */
  datatype Evidence = Evidence(
    pageSize: nat, pages: nat, rows: nat,
    firstKey: Option<string>, lastKey: Option<string>, resumeAfterKey: Option<string>,
    watermark: Option<string>, completed: bool, stopReason: string)

  datatype ScanResult = ScanResult(rows: seq<Row>, evidence: Evidence)

  datatype Checkpoint = Checkpoint(
    queryHash: string, status: string, lastKey: Option<string>, firstKey: Option<string>,
    resumeAfterKey: Option<string>, watermark: Option<string>, pages: nat, rows: nat, stopReason: string)

  /** `value or None`: an empty text counts as absent. */
  function Truthy(o: Option<string>): Option<string> {
    if o == Some("") then None else o
  }

  function Lookup(columns: Columns, name: string): Option<string> {
    if name in columns then columns[name] else None
  }

  function UpdateTimes(rows: seq<Row>): seq<Option<string>> {
    seq(|rows|, i requires 0 <= i < |rows| => Lookup(rows[i].body, "updated_at"))
  }

  function EvidenceOf(s: Scan<string, Columns>, size: nat, resume: Option<string>, completed: bool,
      reason: string): Evidence {
    Evidence(size, s.pages, |s.rows|,
             if s.rows == [] then None else Some(s.rows[0].cursor),
             s.last, Truthy(resume), Watermark.Latest(UpdateTimes(s.rows)), completed, reason)
  }

  function PageEvidence(s: Scan<string, Columns>, size: nat, resume: Option<string>): Evidence {
    EvidenceOf(s, size, resume, false, "page")
  }

  function FinalEvidence(o: Outcome<string, Columns>, size: nat, resume: Option<string>): Evidence {
    EvidenceOf(o.scan, size, resume, o.stop == Exhausted, if o.stop == PageLimit then "max_pages" else "exhausted")
  }

  function CheckpointOf(hash: string, e: Evidence): Checkpoint {
    Checkpoint(hash, if e.completed then "complete" else "inProgress", e.lastKey, e.firstKey,
               e.resumeAfterKey, e.watermark, e.pages, e.rows, e.stopReason)
  }

  function Bounded(size: int): nat
    requires size >= 1
  {
    if size < MAX_PAGE_SIZE then size else MAX_PAGE_SIZE
  }

  /** The stored checkpoints, by checkpoint id. */
  class CheckpointStore {
    var saved: map<string, Checkpoint>

    constructor ()
      ensures saved == map[]
    {
      saved := map[];
    }

    /** The scan's page callback: without a checkpoint id nothing is stored. */
    method SaveEvidence(id: string, hash: string, e: Evidence)
      modifies this
      ensures saved == if id == "" then old(saved) else old(saved)[id := CheckpointOf(hash, e)]
    {
      if id == "" {
        return;
      }
      saved := saved[id := CheckpointOf(hash, e)];
    }
  }

  /** What the store holds once a scan has saved its progress after each of its pages. */
  function ProgressSaved(
    saved: map<string, Checkpoint>, id: string, hash: string,
    s: Scan<string, Columns>, size: nat, resume: Option<string>): map<string, Checkpoint>
  {
    if id == "" || s.pages == 0 then saved else saved[id := CheckpointOf(hash, PageEvidence(s, size, resume))]
  }

  function ResultOf(o: Outcome<string, Columns>, size: nat, resume: Option<string>): Result<ScanResult, ScanError> {
    if o.stop == SourceFailed then Err(SourceUnavailable)
    else Ok(ScanResult(o.scan.rows, FinalEvidence(o, size, resume)))
  }

  /** The rows of a table from i on are those behind the key to resume from; the empty text is no key. */
  ghost predicate StartsAt(lt: (string, string) -> bool, t: seq<Row>, resume: Option<string>, i: int) {
    && 0 <= i <= |t|
    && (resume in {None, Some("")} ==> i == 0)
    && (resume !in {None, Some("")} ==>
          && (forall k :: 0 <= k < i ==> !lt(resume.value, t[k].cursor))
          && (forall k :: i <= k < |t| ==> lt(resume.value, t[k].cursor)))
  }

  /**
   A scan has read the first of the rows, as many as the requested pages hold. It says that it is
   complete if and only if there was room left.
   */
  ghost predicate FillsRoom(s: ScanResult, rest: seq<Row>, size: int, maxPages: int) {
    && (maxPages <= 0 ==> s.rows == rest && s.evidence.completed)
    && (maxPages > 0 ==> |s.rows| == Min(|rest|, maxPages * size) && s.rows == rest[..|s.rows|]
                         && (s.evidence.completed <==> |rest| < maxPages * size))
  }

  ghost function UpdateTime(row: Row): Option<string> {
    if "updated_at" in row.body && row.body["updated_at"] != Some("") then row.body["updated_at"] else None
  }

  /** The last of the rows' update times, as texts. */
  ghost predicate IsLatestUpdate(rows: seq<Row>, latest: Option<string>) {
    && (latest.None? <==> forall row :: row in rows ==> UpdateTime(row).None?)
    && (latest.Some? ==>
          && (exists row :: row in rows && UpdateTime(row) == latest)
          && forall row :: row in rows && UpdateTime(row).Some? ==> !Less(latest.value, UpdateTime(row).value))
  }

  ghost predicate EvidenceTells(s: ScanResult, size: int, resume: Option<string>) {
    var rows, e := s.rows, s.evidence;
    && e.stopReason == (if e.completed then "exhausted" else "max_pages")
    && e.pageSize == size && e.rows == |rows|
    && e.resumeAfterKey == (if resume == Some("") then None else resume)
    && IsLatestUpdate(rows, e.watermark)
    && if rows == [] then e.pages == 0 && e.firstKey == None && e.lastKey == e.resumeAfterKey
       else
         && (e.pages - 1) * size < |rows| <= e.pages * size
         && e.firstKey == Some(rows[0].cursor) && e.lastKey == Some(rows[|rows| - 1].cursor)
  }

  /**
   What a scan of a table that does not change comes to, in terms of what was asked for: pages of the
   requested size, but of no more than 5000 rows.
   */
  ghost predicate IsAsAsked(
    r: Result<ScanResult, ScanError>, lt: (string, string) -> bool, tables: seq<seq<Row>>, pageSize: int,
    maxPages: int, resume: Option<string>)
  {
    StrictTotalOrder(lt) && tables != [] && Sorted(lt, tables[0]) && Stable(tables, tables[0]) ==>
      && r.Ok?
      && var size := if pageSize <= 5000 then pageSize else 5000;
         && EvidenceTells(r.value, size, resume)
         && exists i :: StartsAt(lt, tables[0], resume, i) && FillsRoom(r.value, tables[0][i..], size, maxPages)
  }

  /**
   The page loop. `tables[i]` is what the query would return in full when the i-th page is asked for,
   in key order; when the list is used up the connection is gone and the scan fails. Whatever page it
   fails at, the store holds the progress of exactly the pages before.
   */
  method ExecuteSourceQueryKeyset(
    lt: (string, string) -> bool, tables: seq<seq<Row>>, pageSize: int, resumeAfterKey: Option<string>,
    maxPages: int, store: CheckpointStore, checkpointId: string, queryHash: string)
    returns (r: Result<ScanResult, ScanError>)
    modifies store
    ensures pageSize < 1 ==> r == Err(InvalidPageSize) && store.saved == old(store.saved)
    ensures pageSize >= 1 ==>
              var size := Bounded(pageSize);
              var o := Walk(lt, tables, size, maxPages, Start(Truthy(resumeAfterKey)));
              && r == ResultOf(o, size, resumeAfterKey)
              && store.saved == ProgressSaved(old(store.saved), checkpointId, queryHash, o.scan, size, resumeAfterKey)
    ensures pageSize >= 1 ==> IsAsAsked(r, lt, tables, pageSize, maxPages, resumeAfterKey)
  {
    if pageSize < 1 {
      return Err(InvalidPageSize);
    }
    var size := if pageSize < MAX_PAGE_SIZE then pageSize else MAX_PAGE_SIZE;
    var scan: Scan<string, Columns> := Start(Truthy(resumeAfterKey));
    var completed, stopReason := true, "exhausted";
    var queries := 0;
    ghost var whole := Walk(lt, tables, size, maxPages, scan);

    while true
      invariant 0 <= queries <= |tables|
      invariant completed && stopReason == "exhausted"
      invariant EndsAlike(lt, tables[queries..], size, maxPages, scan, whole)
      invariant store.saved == ProgressSaved(old(store.saved), checkpointId, queryHash, scan, size, resumeAfterKey)
      decreases |tables| - queries
    {
      WalkOneStep(lt, tables, queries, size, maxPages, scan, whole);
      if maxPages > 0 && scan.pages >= maxPages {
        completed, stopReason := false, "max_pages";
        break;
      }
      if queries == |tables| {
        ScanReadsAsAsked(lt, tables, pageSize, maxPages, resumeAfterKey);
        return Err(SourceUnavailable);
      }
      var page := Page(lt, tables[queries], scan.last, size);
      if page == [] {
        break;
      }
      ghost var before := scan;
      queries, scan := queries + 1, Advance(scan, page);
      var evidence := PageEvidence(scan, size, resumeAfterKey);
      store.SaveEvidence(checkpointId, queryHash, evidence);
      assert store.saved == ProgressSaved(old(store.saved), checkpointId, queryHash, scan, size, resumeAfterKey) by {
        SaveOverwrites(old(store.saved), checkpointId, queryHash, before, scan, size, resumeAfterKey);
      }
      if |page| < size {
        break;
      }
    }
    r := Ok(ScanResult(scan.rows, EvidenceOf(scan, size, resumeAfterKey, completed, stopReason)));
    ScanReadsAsAsked(lt, tables, pageSize, maxPages, resumeAfterKey);
  }

  /** Each page's checkpoint replaces the one before. */
  lemma SaveOverwrites(
    saved: map<string, Checkpoint>, id: string, hash: string,
    s: Scan<string, Columns>, next: Scan<string, Columns>, size: nat, resume: Option<string>)
    requires next.pages > 0
    ensures var before := ProgressSaved(saved, id, hash, s, size, resume);
            ProgressSaved(saved, id, hash, next, size, resume)
            == if id == "" then before else before[id := CheckpointOf(hash, PageEvidence(next, size, resume))]
  {
  }

  // ----- one scan -----

  ghost predicate SortedTables(lt: (string, string) -> bool, tables: seq<seq<Row>>) {
    forall i :: 0 <= i < |tables| ==> Sorted(lt, tables[i])
  }

  /**
   However the table changes between page queries: the keys read strictly increase, so none is read
   twice; all lie above the resume key; every row read was in the table at one of the page queries;
   and a scan that reports completion has read every key that was there at each of them.
   */
  lemma ScanOverMovingTable(
    lt: (string, string) -> bool, tables: seq<seq<Row>>, size: nat, maxPages: int, resume: Option<string>)
    requires StrictTotalOrder(lt) && size > 0 && SortedTables(lt, tables)
    ensures var o := Walk(lt, tables, size, maxPages, Start(Truthy(resume)));
            && o.queries <= |tables|
            && Sorted(lt, o.scan.rows)
            && (forall row :: row in o.scan.rows ==>
                  Above(lt, Truthy(resume), row.cursor) && exists i :: 0 <= i < o.queries && row in tables[i])
            && (o.scan.last.Some? && resume.Some? && resume.value != "" ==>
                  o.scan.last == resume || lt(resume.value, o.scan.last.value))
            && (o.stop == Exhausted ==> forall key ::
                  Above(lt, Truthy(resume), key) && HasAlways(tables[..o.queries], key) ==> Has(o.scan.rows, key))
  {
    var after := Truthy(resume);
    var s: Scan<string, Columns> := Start(after);
    var o := Walk(lt, tables, size, maxPages, s);
    WalkInStep(lt, tables, size, maxPages, after, s);
    forall row | row in o.scan.rows
      ensures Above(lt, after, row.cursor) && exists i :: 0 <= i < o.queries && row in tables[i]
    {
      WalkReadsRealRows(lt, tables, size, maxPages, s, row);
    }
    if o.stop == Exhausted {
      forall key | Above(lt, after, key) && HasAlways(tables[..o.queries], key) ensures Has(o.scan.rows, key) {
        WalkMissesNothingThatStays(lt, tables, size, maxPages, after, s, key);
      }
    }
  }

  /** The answers of a source that does not change during the scan, and does not fail. */
  ghost predicate Stable(tables: seq<seq<Row>>, t: seq<Row>) {
    |tables| > |t| && forall i :: 0 <= i < |tables| ==> tables[i] == t
  }

  lemma {:induction false} SelectLength<C, V>(lt: (C, C) -> bool, t: seq<Item<C, V>>, after: Option<C>)
    ensures |Select(lt, t, after)| <= |t|
    ensures after.None? ==> Select(lt, t, after) == t
  {
    if t != [] {
      SelectLength(lt, t[1..], after);
    }
  }

  /**
   With n rows left above the resume key of a fixed table, a run of page size p and limit m reads the
   first min(n, m*p) of them, and reports completion exactly when n < m*p: a run that fills its last
   allowed page does not know that it is done. Without a limit it reads them all.
   */
  lemma RunOverFixedTable(
    lt: (string, string) -> bool, tables: seq<seq<Row>>, t: seq<Row>, p: nat, m: int, resume: Option<string>)
    requires StrictTotalOrder(lt) && p > 0 && Sorted(lt, t) && Stable(tables, t)
    ensures var rest := Select(lt, t, Truthy(resume));
            var o := Walk(lt, tables, p, m, Start(Truthy(resume)));
            && (m <= 0 ==> o.scan.rows == rest && o.stop == Exhausted)
            && (m > 0 ==> o.scan.rows == rest[..Min(|rest|, m * p)] && (o.stop == Exhausted <==> |rest| < m * p)
                          && o.stop != SourceFailed)
  {
    SelectLength(lt, t, Truthy(resume));
    if m <= 0 {
      WalkFixedTableUnlimited(lt, t, tables, p, m, Start(Truthy(resume)));
    } else {
      WalkFixedTableLimited(lt, t, tables, p, m, Start(Truthy(resume)));
      RoomIsProduct(m, p);
    }
  }

  /** The same in terms of what the caller asked for, evidence included. */
  lemma ScanReadsAsAsked(
    lt: (string, string) -> bool, tables: seq<seq<Row>>, pageSize: int, maxPages: int, resume: Option<string>)
    requires pageSize >= 1
    ensures var o := Walk(lt, tables, Bounded(pageSize), maxPages, Start(Truthy(resume)));
            IsAsAsked(ResultOf(o, Bounded(pageSize), resume), lt, tables, pageSize, maxPages, resume)
  {
    if StrictTotalOrder(lt) && tables != [] && Sorted(lt, tables[0]) && Stable(tables, tables[0]) {
      var size := Bounded(pageSize);
      var i := StartOfRun(lt, tables[0], resume);
      RoomIsFilled(lt, tables, tables[0], size, maxPages, resume);
      EvidenceOfRun(lt, tables, size, maxPages, resume);
      var o := Walk(lt, tables, size, maxPages, Start(Truthy(resume)));
      assert FillsRoom(ResultOf(o, size, resume).value, tables[0][i..], size, maxPages);
    }
  }

  lemma RoomIsFilled(
    lt: (string, string) -> bool, tables: seq<seq<Row>>, t: seq<Row>, size: nat, maxPages: int, resume: Option<string>)
    requires StrictTotalOrder(lt) && size > 0 && Sorted(lt, t) && Stable(tables, t)
    ensures var o := Walk(lt, tables, size, maxPages, Start(Truthy(resume)));
            && o.stop != SourceFailed
            && FillsRoom(ResultOf(o, size, resume).value, Select(lt, t, Truthy(resume)), size, maxPages)
  {
    RunOverFixedTable(lt, tables, t, size, maxPages, resume);
    var o, rest := Walk(lt, tables, size, maxPages, Start(Truthy(resume))), Select(lt, t, Truthy(resume));
    if maxPages > 0 {
      FirstRows(o.scan.rows, rest, maxPages, size);
    }
  }

  lemma FirstRows(rows: seq<Row>, rest: seq<Row>, maxPages: int, size: nat)
    requires maxPages > 0 && maxPages * size >= 0 && rows == rest[..Min(|rest|, maxPages * size)]
    ensures |rows| == Min(|rest|, maxPages * size) && rows == rest[..|rows|]
  {
  }

  lemma StartOfRun(lt: (string, string) -> bool, t: seq<Row>, resume: Option<string>) returns (i: nat)
    requires StrictTotalOrder(lt) && Sorted(lt, t)
    ensures StartsAt(lt, t, resume, i) && Select(lt, t, Truthy(resume)) == t[i..]
  {
    i := SelectIsSuffix(lt, t, Truthy(resume));
    SelectLength(lt, t, Truthy(resume));
    i := if Truthy(resume).None? then 0 else i;
  }

  lemma LatestOfRows(rows: seq<Row>)
    ensures IsLatestUpdate(rows, Watermark.Latest(UpdateTimes(rows)))
  {
    var times := UpdateTimes(rows);
    var i := Watermark.LatestIsMaximum(times);
    forall k | 0 <= k < |rows| ensures Watermark.Present(times, k) <==> UpdateTime(rows[k]).Some? {
    }
    if Watermark.Latest(times).Some? {
      assert rows[i] in rows && UpdateTime(rows[i]) == times[i];
      forall row | row in rows && UpdateTime(row).Some? ensures !Less(times[i].value, UpdateTime(row).value) {
        var k :| 0 <= k < |rows| && rows[k] == row;
        assert Watermark.Present(times, k);
      }
    }
  }

  lemma EvidenceOfRun(
    lt: (string, string) -> bool, tables: seq<seq<Row>>, size: nat, maxPages: int, resume: Option<string>)
    requires size > 0 && Walk(lt, tables, size, maxPages, Start(Truthy(resume))).stop != SourceFailed
    ensures var o := Walk(lt, tables, size, maxPages, Start(Truthy(resume)));
            EvidenceTells(ResultOf(o, size, resume).value, size, resume)
  {
    FullPages(lt, tables, size, maxPages, Start(Truthy(resume)));
    RunEndsAtLastRow(lt, tables, size, maxPages, Start(Truthy(resume)), Truthy(resume));
    var o := Walk(lt, tables, size, maxPages, Start(Truthy(resume)));
    LatestOfRows(o.scan.rows);
    if o.scan.pages > 0 {
      RoomIsProduct(o.scan.pages, size);
      RoomIsProduct(o.scan.pages - 1, size);
    }
  }

  // ----- runs that resume from the saved checkpoint -----

  /** No key sorts before the empty text. */
  ghost predicate EmptyIsLeast(lt: (string, string) -> bool) {
    forall k :: k != "" ==> lt("", k)
  }

  ghost predicate NonEmptyKeys(tables: seq<seq<Row>>) {
    forall i, row :: 0 <= i < |tables| && row in tables[i] ==> row.cursor != ""
  }

  /** The empty key, if a table has it, is its first: it sorts before every other text. */
  ghost predicate EmptyFirst(lt: (string, string) -> bool, t: seq<Row>) {
    EmptyIsLeast(lt) || NonEmptyKeys([t])
  }

  lemma BehindAnotherIsNotEmpty(lt: (string, string) -> bool, t: seq<Row>, k: string, row: Row)
    requires StrictTotalOrder(lt) && EmptyFirst(lt, t) && row in t && lt(k, row.cursor)
    ensures row.cursor != ""
  {
    if EmptyIsLeast(lt) {
      assert k == "" || lt("", k);
    } else {
      assert row in [t][0];
    }
  }

  /**
   No unfinished run can end at an empty key, which would not be resumed from: there are none, or each
   page has room for a second row, which sorts behind the empty key.
   */
  ghost predicate Resumable(lt: (string, string) -> bool, tables: seq<seq<Row>>, size: nat) {
    NonEmptyKeys(tables) || (size >= 2 && StrictTotalOrder(lt) && EmptyIsLeast(lt) && SortedTables(lt, tables))
  }

  /** A run that resumes at a key or at no key and does not finish never ends at an empty key. */
  lemma {:induction false} LastKeyIsNotEmpty(
    lt: (string, string) -> bool, tables: seq<seq<Row>>, size: nat, limit: int, s: Scan<string, Columns>)
    requires Resumable(lt, tables, size) && s.last != Some("")
    ensures var r := Walk(lt, tables, size, limit, s);
            r.stop != Exhausted ==> r.scan.last != Some("")
    decreases |tables|
  {
    if !(limit > 0 && s.pages >= limit) && tables != [] {
      var page := Page(lt, tables[0], s.last, size);
      if page != [] && |page| >= size {
        FullPageEndsBehindEmpty(lt, tables, size, s.last);
        assert forall i, row :: 0 <= i < |tables[1..]| && row in tables[1..][i] ==> row in tables[i + 1];
        LastKeyIsNotEmpty(lt, tables[1..], size, limit, Advance(s, page));
      }
    }
  }

  lemma FullPageEndsBehindEmpty(
    lt: (string, string) -> bool, tables: seq<seq<Row>>, size: nat, after: Option<string>)
    requires Resumable(lt, tables, size) && tables != []
    requires var page := Page(lt, tables[0], after, size); page != [] && |page| >= size
    ensures var page := Page(lt, tables[0], after, size); page[|page| - 1].cursor != ""
  {
    var page := Page(lt, tables[0], after, size);
    var last := page[|page| - 1];
    if NonEmptyKeys(tables) {
      SelectMembers(lt, tables[0], after, last);
    } else {
      PageFacts(lt, tables[0], after, size);
      assert lt(page[0].cursor, last.cursor);
      BehindAnotherIsNotEmpty(lt, tables[0], page[0].cursor, last);
    }
  }

  /**
   Runs one after the other, each starting from the last key its predecessor saved, until one
   completes. Run i meets the tables `histories[i]`; a history that is too short makes its run crash,
   after its last saved page, which is also where a crash between a page and its checkpoint leaves it.
   */
  ghost function Runs(
    lt: (string, string) -> bool, histories: seq<seq<seq<Row>>>, size: nat, limit: int, after: Option<string>)
    : Outcome<string, Columns>
    decreases |histories|
  {
    if histories == [] then Outcome(Start(after), SourceFailed, 0)
    else
      var first := Walk(lt, histories[0], size, limit, Start(after));
      if first.stop == Exhausted then first
      else
        var rest := Runs(lt, histories[1..], size, limit, Truthy(first.scan.last));
        Outcome(Scan(first.scan.rows + rest.scan.rows, first.scan.pages + rest.scan.pages, rest.scan.last),
                rest.stop, first.queries + rest.queries)
  }

  /** The tables those runs actually read, in order. */
  ghost function TablesRead(
    lt: (string, string) -> bool, histories: seq<seq<seq<Row>>>, size: nat, limit: int, after: Option<string>)
    : seq<seq<Row>>
    decreases |histories|
  {
    if histories == [] then []
    else
      var first := Walk(lt, histories[0], size, limit, Start(after));
      WalkQueries(lt, histories[0], size, limit, Start(after));
      if first.stop == Exhausted then histories[0]
      else histories[0][..first.queries] + TablesRead(lt, histories[1..], size, limit, Truthy(first.scan.last))
  }

  /**
   A chain of limited and crashing runs is one scan: it reads what a single unlimited scan over the
   same tables reads, in the same order, and it completes exactly when that scan does. With
   `ScanOverMovingTable` this gives the chain every property of a scan.
   */
  lemma {:induction false} ResumedRunsAreOneScan(
    lt: (string, string) -> bool, histories: seq<seq<seq<Row>>>, size: nat, limit: int, after: Option<string>)
    requires after != Some("")
    requires forall i :: 0 <= i < |histories| ==> Resumable(lt, histories[i], size)
    ensures var chain := Runs(lt, histories, size, limit, after);
            var one := Walk(lt, TablesRead(lt, histories, size, limit, after), size, 0, Start(after));
            && chain.scan.rows == one.scan.rows && chain.scan.last == one.scan.last && chain.stop == one.stop
    decreases |histories|
  {
    if histories != [] {
      var first := Walk(lt, histories[0], size, limit, Start(after));
      if first.stop == Exhausted {
        LimitDidNotMatter(lt, histories[0], size, limit, Start(after));
      } else {
        LastKeyIsNotEmpty(lt, histories[0], size, limit, Start(after));
        ResumedRunsAreOneScan(lt, histories[1..], size, limit, first.scan.last);
        var more := TablesRead(lt, histories[1..], size, limit, first.scan.last);
        StoppedRunContinues(lt, histories[0], more, size, limit, Start(after));
      }
    }
  }

  lemma {:induction false} LimitDidNotMatter(
    lt: (string, string) -> bool, tables: seq<seq<Row>>, size: nat, limit: int, s: Scan<string, Columns>)
    requires Walk(lt, tables, size, limit, s).stop == Exhausted
    ensures Walk(lt, tables, size, limit, s) == Walk(lt, tables, size, 0, s)
    decreases |tables|
  {
    var page := Page(lt, tables[0], s.last, size);
    if page != [] && |page| >= size {
      LimitDidNotMatter(lt, tables[1..], size, limit, Advance(s, page));
    }
  }

  /** One run over a table that does not change. */
  ghost function FixedRun(lt: (string, string) -> bool, t: seq<Row>, size: nat, limit: int, after: Option<string>)
    : Outcome<string, Columns>
  {
    Walk(lt, seq(|t| + 1, _ => t), size, limit, Start(after))
  }

  /**
   The one way a run over a fixed table can end unfinished at an empty key: it may read a single row,
   and that row is the first of all and has the empty key. Such a run is repeated in vain.
   */
  predicate StartsOver(t: seq<Row>, size: nat, limit: int, after: Option<string>) {
    size == 1 && limit == 1 && after.None? && t != [] && t[0].cursor == ""
  }

  /** Among the rows above a start only the first can have the empty key, and only if it is the table's first. */
  lemma EmptyOnlyFirst(lt: (string, string) -> bool, t: seq<Row>, after: Option<string>, n: nat)
    requires StrictTotalOrder(lt) && Sorted(lt, t) && EmptyFirst(lt, t) && after != Some("")
    requires 0 < n <= |Select(lt, t, after)|
    ensures Select(lt, t, after)[n - 1].cursor == "" <==> n == 1 && after.None? && t[0].cursor == ""
  {
    var rest := Select(lt, t, after);
    var i := SelectIsSuffix(lt, t, after);
    assert rest[n - 1] == t[i + n - 1] && rest[0] == t[i];
    if n > 1 {
      BehindAnotherIsNotEmpty(lt, t, t[i].cursor, t[i + n - 1]);
    } else if after.Some? {
      BehindAnotherIsNotEmpty(lt, t, after.value, t[i]);
    } else {
      SelectLength(lt, t, after);
    }
  }

  lemma FixedRunLastKey(lt: (string, string) -> bool, t: seq<Row>, size: nat, limit: int, after: Option<string>)
    requires StrictTotalOrder(lt) && Sorted(lt, t) && EmptyFirst(lt, t) && size > 0 && after != Some("")
    ensures var r := FixedRun(lt, t, size, limit, after);
            && (r.stop != Exhausted && r.scan.last == Some("") <==> StartsOver(t, size, limit, after))
            && (r.stop != Exhausted ==> r.scan.last.Some?)
  {
    var tables := seq(|t| + 1, _ => t);
    var r, rest := FixedRun(lt, t, size, limit, after), Select(lt, t, after);
    RunOverFixedTable(lt, tables, t, size, limit, after);
    RunEndsAtLastRow(lt, tables, size, limit, Start(after), after);
    SelectLength(lt, t, after);
    assert StartsOver(t, size, limit, after) ==> |rest| >= limit * size;
    if r.stop != Exhausted {
      ProductAtLeast(limit, size);
      EmptyOnlyFirst(lt, t, after, limit * size);
    }
  }

  lemma ProductAtLeast(limit: int, size: nat)
    requires limit > 0 && size > 0
    ensures limit * size >= 1 && (limit * size == 1 <==> limit == 1 && size == 1)
  {
    if limit > 1 || size > 1 {
      assert (limit - 1) * size >= 0 && limit * size == (limit - 1) * size + size;
      if limit > 1 { assert (limit - 2) * size >= 0 && (limit - 1) * size == (limit - 2) * size + size; }
    }
  }

  lemma FixedRunProgress(lt: (string, string) -> bool, t: seq<Row>, size: nat, limit: int, after: Option<string>)
    requires StrictTotalOrder(lt) && Sorted(lt, t) && size > 0 && after != Some("")
    ensures var r := FixedRun(lt, t, size, limit, after);
            && r.scan.rows + Select(lt, t, r.scan.last) == Select(lt, t, after)
            && (r.stop == Exhausted ==> r.scan.rows == Select(lt, t, after))
            && (r.stop != Exhausted ==> r.scan.rows != [])
  {
    var tables := seq(|t| + 1, _ => t);
    ReadAndRest(lt, t, tables, size, limit, Start(after));
    RunOverFixedTable(lt, tables, t, size, limit, after);
    if limit > 0 {
      ProductAtLeast(limit, size);
    }
  }

  /** The k-th repetition of a run over a table that does not change, each from its predecessor's saved last key. */
  ghost function Repetition(
    lt: (string, string) -> bool, t: seq<Row>, size: nat, limit: int, after: Option<string>, k: nat)
    : Outcome<string, Columns>
    decreases k
  {
    var r := FixedRun(lt, t, size, limit, after);
    if k == 0 then r else Repetition(lt, t, size, limit, Truthy(r.scan.last), k - 1)
  }

  /** Every repetition reads the one row with the empty key again. */
  lemma {:induction false} EmptyKeyStartsOver(lt: (string, string) -> bool, t: seq<Row>, k: nat)
    requires StrictTotalOrder(lt) && Sorted(lt, t) && EmptyFirst(lt, t) && StartsOver(t, 1, 1, None)
    ensures var r := Repetition(lt, t, 1, 1, None, k);
            r.scan.rows == [t[0]] && r.stop == PageLimit && r == FixedRun(lt, t, 1, 1, None)
  {
    FixedRunLastKey(lt, t, 1, 1, None);
    RunOverFixedTable(lt, seq(|t| + 1, _ => t), t, 1, 1, None);
    SelectLength(lt, t, None);
    if k > 0 {
      EmptyKeyStartsOver(lt, t, k - 1);
    }
  }

  /** Repeated runs over a fixed table complete, sooner or later, if and only if they do not start over. */
  lemma {:induction false} RepeatedRunsCompleteIff(
    lt: (string, string) -> bool, t: seq<Row>, size: nat, limit: int, after: Option<string>)
    requires StrictTotalOrder(lt) && Sorted(lt, t) && EmptyFirst(lt, t) && size > 0 && after != Some("")
    ensures (exists k: nat :: Repetition(lt, t, size, limit, after, k).stop == Exhausted)
            <==> !StartsOver(t, size, limit, after)
    decreases |Select(lt, t, after)|
  {
    var r := FixedRun(lt, t, size, limit, after);
    FixedRunLastKey(lt, t, size, limit, after);
    if StartsOver(t, size, limit, after) {
      forall k: nat ensures Repetition(lt, t, size, limit, after, k).stop != Exhausted {
        EmptyKeyStartsOver(lt, t, k);
      }
    } else if r.stop == Exhausted {
      assert Repetition(lt, t, size, limit, after, 0).stop == Exhausted;
    } else {
      FixedRunProgress(lt, t, size, limit, after);
      RepeatedRunsCompleteIff(lt, t, size, limit, r.scan.last);
      var k: nat :| Repetition(lt, t, size, limit, r.scan.last, k).stop == Exhausted;
      assert Repetition(lt, t, size, limit, after, k + 1).stop == Exhausted;
    }
  }

  /** What the repeated runs read until one completes. */
  ghost function Chain(lt: (string, string) -> bool, t: seq<Row>, size: nat, limit: int,
      after: Option<string>): seq<Row>
    requires StrictTotalOrder(lt) && Sorted(lt, t) && EmptyFirst(lt, t) && size > 0 && after != Some("")
    requires !StartsOver(t, size, limit, after)
    decreases |Select(lt, t, after)|
  {
    var r := FixedRun(lt, t, size, limit, after);
    FixedRunProgress(lt, t, size, limit, after);
    FixedRunLastKey(lt, t, size, limit, after);
    if r.stop == Exhausted then r.scan.rows
    else r.scan.rows + Chain(lt, t, size, limit, Truthy(r.scan.last))
  }

  /** The repeated runs end, and together read the table above the start once, in order. */
  lemma {:induction false} ChainIsFullScan(
    lt: (string, string) -> bool, t: seq<Row>, size: nat, limit: int, after: Option<string>)
    requires StrictTotalOrder(lt) && Sorted(lt, t) && EmptyFirst(lt, t) && size > 0 && after != Some("")
    requires !StartsOver(t, size, limit, after)
    ensures Chain(lt, t, size, limit, after) == Select(lt, t, after)
    ensures after.None? ==> Chain(lt, t, size, limit, after) == t
    decreases |Select(lt, t, after)|
  {
    var r := FixedRun(lt, t, size, limit, after);
    FixedRunProgress(lt, t, size, limit, after);
    FixedRunLastKey(lt, t, size, limit, after);
    SelectLength(lt, t, after);
    if r.stop != Exhausted {
      ChainIsFullScan(lt, t, size, limit, r.scan.last);
    }
  }

  /**
   A crash loses nothing: after any number of saved pages, the rows those pages held and the rows the
   runs resuming from the checkpoint will read make up everything above the start, once and in order.
   A page that was fetched but not yet saved is among the latter. The exception is a checkpoint at the
   empty key, after one page of that one row: then the resumed runs read the row a second time.
   */
  lemma CrashLosesNothing(
    lt: (string, string) -> bool, t: seq<Row>, size: nat, limit: int, resume: Option<string>, tables: seq<seq<Row>>,
    saved: map<string, Checkpoint>, id: string, hash: string)
    requires StrictTotalOrder(lt) && Sorted(lt, t) && EmptyFirst(lt, t) && size > 0
    requires !StartsOver(t, size, limit, Truthy(resume))
    requires forall i :: 0 <= i < |tables| ==> tables[i] == t
    requires id != "" && Walk(lt, tables, size, limit, Start(Truthy(resume))).scan.pages > 0
    ensures var before := Walk(lt, tables, size, limit, Start(Truthy(resume))).scan;
            var stored := ProgressSaved(saved, id, hash, before, size, resume);
            var again := Truthy(resume).None? && t != [] && t[0].cursor == ""
                         && before.pages == 1 && (size == 1 || |t| == 1);
            && id in stored
            && !StartsOver(t, size, limit, Truthy(stored[id].lastKey))
            && before.rows + Chain(lt, t, size, limit, Truthy(stored[id].lastKey))
               == if again then [t[0]] + t else Select(lt, t, Truthy(resume))
  {
    var after := Truthy(resume);
    var before := Walk(lt, tables, size, limit, Start(after)).scan;
    CrashedRunLastKey(lt, t, tables, size, limit, after);
    assert before.rows + Select(lt, t, before.last) == Select(lt, t, after) by {
      ReadAndRest(lt, t, tables, size, limit, Start(after));
    }
    assert ProgressSaved(saved, id, hash, before, size, resume)[id].lastKey == before.last;
    assert Chain(lt, t, size, limit, Truthy(before.last)) == Select(lt, t, Truthy(before.last)) by {
      ChainIsFullScan(lt, t, size, limit, Truthy(before.last));
    }
    assert Select(lt, t, None) == t by { SelectLength(lt, t, None); }
  }

  /** When a run that has read something ends at the empty key. */
  lemma CrashedRunLastKey(
    lt: (string, string) -> bool, t: seq<Row>, tables: seq<seq<Row>>, size: nat, limit: int, after: Option<string>)
    requires StrictTotalOrder(lt) && Sorted(lt, t) && EmptyFirst(lt, t) && size > 0 && after != Some("")
    requires forall i :: 0 <= i < |tables| ==> tables[i] == t
    requires Walk(lt, tables, size, limit, Start(after)).scan.pages > 0
    ensures var r := Walk(lt, tables, size, limit, Start(after)).scan;
            && (r.last == Some("")
                <==> after.None? && t != [] && t[0].cursor == "" && r.pages == 1 && (size == 1 || |t| == 1))
            && (r.last == Some("") ==> r.rows == [t[0]])
            && r.last.Some?
  {
    var o := Walk(lt, tables, size, limit, Start(after));
    RowsOfRun(lt, t, tables, size, limit, after);
    PagesAreFilled(lt, tables, size, limit, Start(after));
    RunEndsAtLastRow(lt, tables, size, limit, Start(after), after);
    OneRowIff(|o.scan.rows|, o.scan.pages, size, |Select(lt, t, after)|, o.stop == Exhausted);
    LastKeyOfPrefix(lt, t, after, o.scan);
    SelectLength(lt, t, None);
  }

  lemma LastKeyOfPrefix(lt: (string, string) -> bool, t: seq<Row>, after: Option<string>, r: Scan<string, Columns>)
    requires StrictTotalOrder(lt) && Sorted(lt, t) && EmptyFirst(lt, t) && after != Some("")
    requires 0 < |r.rows| <= |Select(lt, t, after)| && r.rows == Select(lt, t, after)[..|r.rows|]
    requires EndsAtLastRow(r, after)
    ensures r.last.Some?
    ensures r.last == Some("") <==> |r.rows| == 1 && after.None? && t != [] && t[0].cursor == ""
    ensures r.last == Some("") ==> r.rows == [t[0]]
  {
    EmptyOnlyFirst(lt, t, after, |r.rows|);
    SelectLength(lt, t, after);
  }

  /** A run that has read something has read the first rows above its start, all if it finished. */
  lemma RowsOfRun(
    lt: (string, string) -> bool, t: seq<Row>, tables: seq<seq<Row>>, size: nat, limit: int, after: Option<string>)
    requires StrictTotalOrder(lt) && Sorted(lt, t) && size > 0
    requires forall i :: 0 <= i < |tables| ==> tables[i] == t
    requires Walk(lt, tables, size, limit, Start(after)).scan.pages > 0
    ensures var o, rest := Walk(lt, tables, size, limit, Start(after)), Select(lt, t, after);
            && 0 < |o.scan.rows| <= |rest| && o.scan.rows == rest[..|o.scan.rows|]
            && (o.stop == Exhausted ==> o.scan.rows == rest)
  {
    var o := Walk(lt, tables, size, limit, Start(after));
    PagesAreFilled(lt, tables, size, limit, Start(after));
    ReadAndRest(lt, t, tables, size, limit, Start(after));
    TakenAndLeft(o.scan.rows, Select(lt, t, o.scan.last), Select(lt, t, after));
  }

  /** It has read a single row only if its only page had no second. */
  lemma OneRowIff(rows: nat, pages: nat, size: nat, rest: nat, exhausted: bool)
    requires 0 < pages <= rows <= rest && size > 0
    requires pages == 1 ==> rows <= size && (rows < size ==> exhausted)
    requires exhausted ==> rows == rest
    ensures rows == 1 <==> pages == 1 && (size == 1 || rest == 1)
  {
  }

  /** A scan ends at the last row it has read, or else where it began. */
  ghost predicate EndsAtLastRow(s: Scan<string, Columns>, after: Option<string>) {
    s.last == if s.rows == [] then after else Some(s.rows[|s.rows| - 1].cursor)
  }

  lemma {:induction false} RunEndsAtLastRow(
    lt: (string, string) -> bool, tables: seq<seq<Row>>, size: nat, limit: int, s: Scan<string, Columns>,
    after: Option<string>)
    requires EndsAtLastRow(s, after)
    ensures EndsAtLastRow(Walk(lt, tables, size, limit, s).scan, after)
    decreases |tables|
  {
    if !(limit > 0 && s.pages >= limit) && tables != [] {
      var page := Page(lt, tables[0], s.last, size);
      if page != [] {
        RunEndsAtLastRow(lt, tables[1..], size, limit, Advance(s, page), after);
      }
    }
  }

  lemma TakenAndLeft<T>(taken: seq<T>, left: seq<T>, all: seq<T>)
    requires taken + left == all
    ensures |taken| <= |all| && taken == all[..|taken|] && (left == [] ==> taken == all)
  {
  }

  /** No page is empty, and a run of one page finds it less than full only at the end. */
  lemma {:induction false} PagesAreFilled(
    lt: (string, string) -> bool, tables: seq<seq<Row>>, size: nat, limit: int, s: Scan<string, Columns>)
    requires size > 0
    ensures var o := Walk(lt, tables, size, limit, s);
            var rows, pages := |o.scan.rows| - |s.rows|, o.scan.pages - s.pages;
            && 0 <= pages <= rows && (pages == 0 ==> rows == 0)
            && (pages == 1 ==> rows <= size && (rows < size ==> o.stop == Exhausted))
    decreases |tables|
  {
    if !(limit > 0 && s.pages >= limit) && tables != [] {
      var page := Page(lt, tables[0], s.last, size);
      if page != [] && |page| >= size {
        PagesAreFilled(lt, tables[1..], size, limit, Advance(s, page));
      }
    }
  }
}
