/** Reading a whole OpenSearch query result page by page (`search.paginated_search`). */
module TargetSearch {
  import opened Common
  import opened Paging
  import opened KeysetScan

  /** The sort values of a hit: the key column, which a document may lack, then the document id. */
  datatype SortValues = SortValues(key: Option<string>, id: string)

  type Hit = Item<SortValues, Columns>

  datatype SearchError = InvalidTargetPageSize | TargetUnavailable

  /** The row a hit stands for: its document, with the document id as key if it has no key column. */
  function Document(hit: Hit, keyField: string): Columns {
    if keyField in hit.body then hit.body else hit.body[keyField := Some(hit.cursor.id)]
  }

  function Documents(hits: seq<Hit>, keyField: string): (r: seq<Columns>)
    ensures |r| == |hits|
  {
    seq(|hits|, i requires 0 <= i < |hits| => Document(hits[i], keyField))
  }

  /** The documents of the hits in order, each with its key: its own, or else the document id. */
  ghost predicate AreDocuments(rows: seq<Columns>, hits: seq<Hit>, keyField: string) {
    && |rows| == |hits|
    && forall i :: 0 <= i < |hits| ==>
         && (keyField in hits[i].body ==> rows[i] == hits[i].body)
         && (keyField !in hits[i].body ==> rows[i] == hits[i].body[keyField := Some(hits[i].cursor.id)])
  }

  /** Every answer is the same sorted result. */
  ghost predicate Unchanging(lt: (SortValues, SortValues) -> bool, pages: seq<seq<Hit>>) {
    StrictTotalOrder(lt) && pages != [] && Sorted(lt, pages[0])
    && forall i :: 0 <= i < |pages| ==> pages[i] == pages[0]
  }

  /** The `search_after` loop; `pages[i]` is the full result, in sort order, at the i-th request. */
  method PaginatedSearch(
    lt: (SortValues, SortValues) -> bool, pages: seq<seq<Hit>>, pageSize: int, keyField: string)
    returns (r: Result<seq<Columns>, SearchError>)
    ensures pageSize < 1 ==> r == Err(InvalidTargetPageSize)
    ensures pageSize >= 1 ==>
              var o := Walk(lt, pages, Bounded(pageSize), 0, Start(None));
              r == if o.stop == SourceFailed then Err(TargetUnavailable) else Ok(Documents(o.scan.rows, keyField))
    ensures pageSize >= 1 && Unchanging(lt, pages) ==>
              var size := if pageSize <= 5000 then pageSize else 5000;
              && (r.Ok? <==> |pages[0]| < |pages| * size)
              && (r.Ok? ==> AreDocuments(r.value, pages[0], keyField))
  {
    if pageSize < 1 {
      return Err(InvalidTargetPageSize);
    }
    var size := if pageSize < MAX_PAGE_SIZE then pageSize else MAX_PAGE_SIZE;
    var rows: seq<Columns> := [];
    var searchAfter: Option<SortValues> := None;
    var requests := 0;
    ghost var read: Scan<SortValues, Columns> := Start(None);
    ghost var whole := Walk(lt, pages, size, 0, read);
    while true
      invariant 0 <= requests <= |pages|
      invariant rows == Documents(read.rows, keyField) && searchAfter == read.last
      invariant EndsAlike(lt, pages[requests..], size, 0, read, whole)
      decreases |pages| - requests
    {
      WalkOneStep(lt, pages, requests, size, 0, read, whole);
      if requests == |pages| {
        if Unchanging(lt, pages) {
          RequestsNeeded(lt, pages, size);
        }
        return Err(TargetUnavailable);
      }
      var hits := Page(lt, pages[requests], searchAfter, size);
      if hits == [] {
        break;
      }
      rows := rows + Documents(hits, keyField);
      requests, read := requests + 1, Advance(read, hits);
      searchAfter := Some(hits[|hits| - 1].cursor);
      assert rows == Documents(read.rows, keyField);
      if |hits| < size {
        break;
      }
    }
    r := Ok(rows);
    if Unchanging(lt, pages) {
      RequestsNeeded(lt, pages, size);
    }
  }

  /** The search fails if and only if the target stops answering before the requests that its hits need. */
  lemma RequestsNeeded(lt: (SortValues, SortValues) -> bool, pages: seq<seq<Hit>>, size: nat)
    requires Unchanging(lt, pages) && size > 0
    ensures var o := Walk(lt, pages, size, 0, Start(None));
            && (o.stop == SourceFailed <==> |pages| * size <= |pages[0]|)
            && (o.stop != SourceFailed ==> o.scan.rows == pages[0])
  {
    SelectLength(lt, pages[0], None);
    QueriesNeeded(lt, pages[0], pages, size, Start(None));
    ReadAndRest(lt, pages[0], pages, size, 0, Start(None));
    WithoutLimit(lt, pages, size, Start(None));
    var o := Walk(lt, pages, size, 0, Start(None));
    assert o.stop != SourceFailed ==> o.scan.rows + [] == pages[0];
  }

  lemma {:induction false} WithoutLimit<C, V>(
    lt: (C, C) -> bool, tables: seq<seq<Item<C, V>>>, size: nat, s: Scan<C, V>)
    ensures Walk(lt, tables, size, 0, s).stop != PageLimit
    decreases |tables|
  {
    if tables != [] {
      var page := Page(lt, tables[0], s.last, size);
      if page != [] && |page| >= size {
        WithoutLimit(lt, tables[1..], size, Advance(s, page));
      }
    }
  }

  /** A result that does not change while it is read is read completely. */
  lemma StableResultIsReadInFull(
    lt: (SortValues, SortValues) -> bool, pages: seq<seq<Hit>>, hits: seq<Hit>, size: nat)
    requires StrictTotalOrder(lt) && Sorted(lt, hits) && size > 0
    requires |pages| > |hits| && forall i :: 0 <= i < |pages| ==> pages[i] == hits
    ensures var o := Walk(lt, pages, size, 0, Start(None));
            o.scan.rows == hits && o.stop == Exhausted
  {
    SelectLength(lt, hits, None);
    WalkFixedTableUnlimited(lt, hits, pages, size, 0, Start(None));
  }
}
