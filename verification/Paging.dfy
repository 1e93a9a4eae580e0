/**
 Page-by-page reading of a sorted collection that may change between two page queries.

 Two loops of the source have this shape: the keyset scan of a Postgres query and the
 `search_after` pagination of an OpenSearch query. Each page query asks for at most `size` rows
 whose cursor lies strictly above the last cursor seen; what differs between the loops is only
 the cursor and the page limit. The order on cursors is the store's own, so it is a parameter.
 */
module Paging {
  import opened Common

  /** A row as the store returns it: the cursor it is sorted by, and the rest of its columns. */
  datatype Item<C, V> = Item(cursor: C, body: V)

  /** What a loop has read so far: its rows, how many pages they came in, and the cursor to continue from. */
  datatype Scan<C, V> = Scan(rows: seq<Item<C, V>>, pages: nat, last: Option<C>)

  /** Why a loop ended: nothing was left, the page limit was reached, or the store stopped answering. */
  datatype Stop = Exhausted | PageLimit | SourceFailed

  /** How a loop ended, and how many page queries it issued. */
  datatype Outcome<C, V> = Outcome(scan: Scan<C, V>, stop: Stop, queries: nat)

  ghost predicate StrictTotalOrder<C(!new)>(lt: (C, C) -> bool) {
    && (forall a :: !lt(a, a))
    && (forall a, b, c :: lt(a, b) && lt(b, c) ==> lt(a, c))
    && (forall a, b :: a == b || lt(a, b) || lt(b, a))
  }

  predicate Above<C>(lt: (C, C) -> bool, after: Option<C>, c: C) {
    after.None? || lt(after.value, c)
  }

  /** Sorted by cursor, no cursor twice: what `order by` returns when the cursor is unique. */
  ghost predicate Sorted<C, V>(lt: (C, C) -> bool, rows: seq<Item<C, V>>) {
    forall i, j :: 0 <= i < j < |rows| ==> lt(rows[i].cursor, rows[j].cursor)
  }

  ghost predicate Has<C, V>(rows: seq<Item<C, V>>, c: C) {
    exists i :: 0 <= i < |rows| && rows[i].cursor == c
  }

  /** The cursor is in every one of the tables. */
  ghost predicate HasAlways<C, V>(tables: seq<seq<Item<C, V>>>, c: C) {
    forall i :: 0 <= i < |tables| ==> Has(tables[i], c)
  }

  /** The `where cursor > after` clause. */
  function Select<C, V>(lt: (C, C) -> bool, rows: seq<Item<C, V>>, after: Option<C>): seq<Item<C, V>> {
    if rows == [] then []
    else if Above(lt, after, rows[0].cursor) then [rows[0]] + Select(lt, rows[1..], after)
    else Select(lt, rows[1..], after)
  }

  /** One page query: the first `size` rows above `after`. */
  function Page<C, V>(lt: (C, C) -> bool, rows: seq<Item<C, V>>, after: Option<C>, size: nat): seq<Item<C, V>> {
    var above := Select(lt, rows, after);
    if |above| <= size then above else above[..size]
  }

  function Start<C, V>(after: Option<C>): Scan<C, V> {
    Scan([], 0, after)
  }

  function Advance<C, V>(s: Scan<C, V>, page: seq<Item<C, V>>): Scan<C, V>
    requires page != []
  {
    Scan(s.rows + page, s.pages + 1, Some(page[|page| - 1].cursor))
  }

  /**
   The whole loop. `tables[i]` is what the collection holds when the i-th page query runs; when
   the list is used up the store has stopped answering. A limit of zero or less is no limit.
   */
  function Walk<C, V>(lt: (C, C) -> bool, tables: seq<seq<Item<C, V>>>, size: nat, limit: int, s: Scan<C, V>)
    : Outcome<C, V>
    decreases |tables|
  {
    if limit > 0 && s.pages >= limit then Outcome(s, PageLimit, 0)
    else if tables == [] then Outcome(s, SourceFailed, 0)
    else
      var page := Page(lt, tables[0], s.last, size);
      if page == [] then Outcome(s, Exhausted, 1)
      else if |page| < size then Outcome(Advance(s, page), Exhausted, 1)
      else
        var rest := Walk(lt, tables[1..], size, limit, Advance(s, page));
        rest.(queries := rest.queries + 1)
  }

  /** The loop from here on ends where the whole loop ends. */
  ghost predicate EndsAlike<C, V>(
    lt: (C, C) -> bool, tables: seq<seq<Item<C, V>>>, size: nat, limit: int, s: Scan<C, V>, whole: Outcome<C, V>)
  {
    var rest := Walk(lt, tables, size, limit, s);
    rest.scan == whole.scan && rest.stop == whole.stop
  }

  /** One turn of a loop that has reached the page query q. */
  lemma WalkOneStep<C, V>(
    lt: (C, C) -> bool, tables: seq<seq<Item<C, V>>>, q: nat, size: nat, limit: int, s: Scan<C, V>,
    whole: Outcome<C, V>)
    requires q <= |tables| && EndsAlike(lt, tables[q..], size, limit, s, whole)
    ensures if limit > 0 && s.pages >= limit then whole.scan == s && whole.stop == PageLimit
            else if q == |tables| then whole.scan == s && whole.stop == SourceFailed
            else
              var page := Page(lt, tables[q], s.last, size);
              if page == [] then whole.scan == s && whole.stop == Exhausted
              else if |page| < size then whole.scan == Advance(s, page) && whole.stop == Exhausted
              else EndsAlike(lt, tables[q + 1..], size, limit, Advance(s, page), whole)
  {
    if q < |tables| {
      assert tables[q..][0] == tables[q] && tables[q..][1..] == tables[q + 1..];
    }
  }

  // ----- one page query -----

  lemma {:induction false} SelectMembers<C, V>(
    lt: (C, C) -> bool, rows: seq<Item<C, V>>, after: Option<C>, x: Item<C, V>)
    ensures x in Select(lt, rows, after) <==> x in rows && Above(lt, after, x.cursor)
  {
    if rows != [] {
      SelectMembers(lt, rows[1..], after, x);
    }
  }

  /** On a sorted table the rows above a cursor are a suffix. */
  lemma {:induction false} SelectIsSuffix<C(!new), V>(lt: (C, C) -> bool, rows: seq<Item<C, V>>, after: Option<C>)
    returns (i: nat)
    requires StrictTotalOrder(lt) && Sorted(lt, rows)
    ensures i <= |rows| && Select(lt, rows, after) == rows[i..]
    ensures forall k :: 0 <= k < i ==> !Above(lt, after, rows[k].cursor)
    ensures forall k :: i <= k < |rows| ==> Above(lt, after, rows[k].cursor)
  {
    if rows == [] {
      i := 0;
    } else {
      var j := SelectIsSuffix(lt, rows[1..], after);
      if Above(lt, after, rows[0].cursor) {
        assert |rows| > 1 ==> rows[1..][0] == rows[1] && lt(rows[0].cursor, rows[1].cursor);
        i := 0;
      } else {
        i := j + 1;
        assert rows[1..][j..] == rows[i..];
        forall k | 0 <= k < i ensures !Above(lt, after, rows[k].cursor) {
          if k > 0 { assert rows[k] == rows[1..][k - 1]; }
        }
      }
      forall k | i <= k < |rows| ensures Above(lt, after, rows[k].cursor) {
        if k > 0 { assert rows[k] == rows[1..][k - 1]; }
      }
    }
  }

  /** What a page promises: sorted rows of the table, above `after`, with nothing left out below its end. */
  lemma PageFacts<C(!new), V>(lt: (C, C) -> bool, rows: seq<Item<C, V>>, after: Option<C>, size: nat)
    requires StrictTotalOrder(lt) && Sorted(lt, rows)
    ensures var page := Page(lt, rows, after, size);
            && |page| <= size && Sorted(lt, page)
            && (forall x :: x in page ==> x in rows && Above(lt, after, x.cursor))
            && (forall c :: Has(rows, c) && Above(lt, after, c) ==>
                  Has(page, c) || (|page| == size && (page != [] ==> lt(page[|page| - 1].cursor, c))))
  {
    var page := Page(lt, rows, after, size);
    var i := SelectIsSuffix(lt, rows, after);
    assert page == rows[i..i + |page|];
    forall x | x in page ensures x in rows && Above(lt, after, x.cursor) {
      SelectMembers(lt, rows, after, x);
    }
    forall c | Has(rows, c) && Above(lt, after, c)
      ensures Has(page, c) || (|page| == size && (page != [] ==> lt(page[|page| - 1].cursor, c)))
    {
      var k :| 0 <= k < |rows| && rows[k].cursor == c;
      if k < i + |page| {
        assert page[k - i] == rows[k];
      } else if page != [] {
        assert page[|page| - 1] == rows[i + |page| - 1];
      }
    }
  }

  /** On a table that does not change, the rows left after a page are the old rest without that page. */
  lemma RestAfterPage<C(!new), V>(lt: (C, C) -> bool, rows: seq<Item<C, V>>, after: Option<C>, size: nat)
    requires StrictTotalOrder(lt) && Sorted(lt, rows)
    requires Page(lt, rows, after, size) != []
    ensures var page := Page(lt, rows, after, size);
            Select(lt, rows, Some(page[|page| - 1].cursor)) == Select(lt, rows, after)[|page|..]
  {
    var page := Page(lt, rows, after, size);
    var i := SelectIsSuffix(lt, rows, after);
    var last := page[|page| - 1].cursor;
    assert last == rows[i + |page| - 1].cursor;
    var j := SelectIsSuffix(lt, rows, Some(last));
    assert !Above(lt, Some(last), rows[i + |page| - 1].cursor);
    assert i + |page| < |rows| ==> Above(lt, Some(last), rows[i + |page|].cursor);
  }

  // ----- the loop over a changing collection -----

  /** The loop's own consistency: its rows are sorted, lie above the start, and end at its cursor. */
  ghost predicate InStep<C, V>(lt: (C, C) -> bool, after: Option<C>, s: Scan<C, V>) {
    && Sorted(lt, s.rows)
    && (forall i :: 0 <= i < |s.rows| ==> Above(lt, after, s.rows[i].cursor))
    && s.last == (if s.rows == [] then after else Some(s.rows[|s.rows| - 1].cursor))
    && (s.pages > 0 ==> s.rows != [])
  }

  /** Every cursor of `Has` has been read, or still lies ahead of the loop. */
  ghost predicate ReadOrAhead<C, V>(lt: (C, C) -> bool, s: Scan<C, V>, c: C) {
    Has(s.rows, c) || Above(lt, s.last, c)
  }

  /** One page keeps the loop in step, and moves its cursor strictly upwards. */
  lemma AdvanceInStep<C(!new), V>(
    lt: (C, C) -> bool, after: Option<C>, s: Scan<C, V>, rows: seq<Item<C, V>>, size: nat)
    requires StrictTotalOrder(lt) && Sorted(lt, rows) && InStep(lt, after, s)
    requires Page(lt, rows, s.last, size) != []
    ensures var page := Page(lt, rows, s.last, size);
            && InStep(lt, after, Advance(s, page))
            && Above(lt, s.last, Advance(s, page).last.value)
            && (forall c :: Has(rows, c) && Above(lt, after, c) && ReadOrAhead(lt, s, c)
                  ==> ReadOrAhead(lt, Advance(s, page), c) && (|page| < size ==> Has(Advance(s, page).rows, c)))
  {
    var page := Page(lt, rows, s.last, size);
    var next := Advance(s, page);
    PageFacts(lt, rows, s.last, size);
    assert forall i :: 0 <= i < |page| ==> page[i] in page;
    AppendKeepsOrder(lt, after, s, page);
    forall c | Has(rows, c) && Above(lt, after, c) && ReadOrAhead(lt, s, c)
      ensures ReadOrAhead(lt, next, c) && (|page| < size ==> Has(next.rows, c))
    {
      if Has(s.rows, c) || Has(page, c) {
        HasInEither(s.rows, page, c);
      }
    }
  }

  lemma HasInEither<C, V>(xs: seq<Item<C, V>>, ys: seq<Item<C, V>>, c: C)
    requires Has(xs, c) || Has(ys, c)
    ensures Has(xs + ys, c)
  {
    if Has(xs, c) {
      var k :| 0 <= k < |xs| && xs[k].cursor == c;
      assert (xs + ys)[k].cursor == c;
    } else {
      var k :| 0 <= k < |ys| && ys[k].cursor == c;
      assert (xs + ys)[|xs| + k].cursor == c;
    }
  }

  /** Rows above the cursor, in order, can be appended. */
  lemma AppendKeepsOrder<C(!new), V>(lt: (C, C) -> bool, after: Option<C>, s: Scan<C, V>, page: seq<Item<C, V>>)
    requires StrictTotalOrder(lt) && InStep(lt, after, s)
    requires page != [] && Sorted(lt, page)
    requires forall i :: 0 <= i < |page| ==> Above(lt, s.last, page[i].cursor)
    ensures InStep(lt, after, Advance(s, page))
  {
    var next := Advance(s, page);
    forall i, j | 0 <= i < j < |next.rows| ensures lt(next.rows[i].cursor, next.rows[j].cursor) {
      if i < |s.rows| <= j {
        assert next.rows[i].cursor == s.last.value || lt(next.rows[i].cursor, s.last.value);
        assert next.rows[j] == page[j - |s.rows|];
      }
    }
    forall i | 0 <= i < |next.rows| ensures Above(lt, after, next.rows[i].cursor) {
      if i >= |s.rows| {
        assert next.rows[i] == page[i - |s.rows|];
        assert s.rows == [] || Above(lt, after, s.rows[|s.rows| - 1].cursor);
      }
    }
  }

  /** A loop that starts in step stays in step; it only appends, and its cursor only moves up. */
  lemma {:induction false} WalkInStep<C(!new), V>(
    lt: (C, C) -> bool, tables: seq<seq<Item<C, V>>>, size: nat, limit: int, after: Option<C>, s: Scan<C, V>)
    requires StrictTotalOrder(lt) && InStep(lt, after, s)
    requires forall i :: 0 <= i < |tables| ==> Sorted(lt, tables[i])
    ensures var r := Walk(lt, tables, size, limit, s);
            && InStep(lt, after, r.scan)
            && s.rows <= r.scan.rows
            && s.pages <= r.scan.pages
            && r.queries <= |tables|
            && (r.scan.last == s.last || (r.scan.last.Some? && Above(lt, s.last, r.scan.last.value)))
    decreases |tables|
  {
    if !(limit > 0 && s.pages >= limit) && tables != [] {
      var page := Page(lt, tables[0], s.last, size);
      if page != [] {
        AdvanceInStep(lt, after, s, tables[0], size);
        if |page| >= size {
          WalkInStep(lt, tables[1..], size, limit, after, Advance(s, page));
        }
      }
    }
  }

  /** Every row the loop reads was in the table at one of its page queries. */
  lemma {:induction false} WalkReadsRealRows<C(!new), V>(
    lt: (C, C) -> bool, tables: seq<seq<Item<C, V>>>, size: nat, limit: int, s: Scan<C, V>, x: Item<C, V>)
    requires StrictTotalOrder(lt)
    requires forall i :: 0 <= i < |tables| ==> Sorted(lt, tables[i])
    requires x in Walk(lt, tables, size, limit, s).scan.rows && x !in s.rows
    ensures exists i :: 0 <= i < Walk(lt, tables, size, limit, s).queries <= |tables| && x in tables[i]
    decreases |tables|
  {
    var page := Page(lt, tables[0], s.last, size);
    var next := Advance(s, page);
    SelectMembers(lt, tables[0], s.last, x);
    if x in next.rows {
      assert x in page;
      if |page| >= size {
        WalkQueries(lt, tables[1..], size, limit, next);
      }
    } else {
      WalkReadsRealRows(lt, tables[1..], size, limit, next, x);
      var i :| 0 <= i < Walk(lt, tables[1..], size, limit, next).queries && x in tables[1..][i];
      assert x in tables[i + 1];
    }
  }

  lemma {:induction false} WalkQueries<C(!new), V>(
    lt: (C, C) -> bool, tables: seq<seq<Item<C, V>>>, size: nat, limit: int, s: Scan<C, V>)
    ensures Walk(lt, tables, size, limit, s).queries <= |tables|
    decreases |tables|
  {
    if !(limit > 0 && s.pages >= limit) && tables != [] {
      var page := Page(lt, tables[0], s.last, size);
      if page != [] && |page| >= size {
        WalkQueries(lt, tables[1..], size, limit, Advance(s, page));
      }
    }
  }

  /**
   Nothing that stays is missed: when the loop reports that nothing is left, every cursor above the
   start that was in the table at each of the loop's page queries has been read.
   */
  lemma {:induction false} WalkMissesNothingThatStays<C(!new), V>(
    lt: (C, C) -> bool, tables: seq<seq<Item<C, V>>>, size: nat, limit: int, after: Option<C>, s: Scan<C, V>, c: C)
    requires StrictTotalOrder(lt) && size > 0 && InStep(lt, after, s)
    requires forall i :: 0 <= i < |tables| ==> Sorted(lt, tables[i])
    requires Walk(lt, tables, size, limit, s).stop == Exhausted
    requires Walk(lt, tables, size, limit, s).queries <= |tables|
    requires Above(lt, after, c) && ReadOrAhead(lt, s, c)
    requires HasAlways(tables[..Walk(lt, tables, size, limit, s).queries], c)
    ensures Has(Walk(lt, tables, size, limit, s).scan.rows, c)
    decreases |tables|
  {
    var r := Walk(lt, tables, size, limit, s);
    var page := Page(lt, tables[0], s.last, size);
    assert tables[..r.queries][0] == tables[0];
    if page == [] {
      PageFacts(lt, tables[0], s.last, size);
    } else {
      AdvanceInStep(lt, after, s, tables[0], size);
      if |page| >= size {
        WalkQueries(lt, tables[1..], size, limit, Advance(s, page));
        assert tables[1..][..r.queries - 1] == tables[..r.queries][1..];
        WalkMissesNothingThatStays(lt, tables[1..], size, limit, after, Advance(s, page), c);
      }
    }
  }

  // ----- the loop over a collection that does not change -----

  function Min(a: int, b: int): int { if a < b then a else b }

  /** How many rows the given number of full pages holds. */
  function Room(pages: nat, size: nat): nat {
    if pages == 0 then 0 else size + Room(pages - 1, size)
  }

  lemma {:induction false} RoomIsProduct(pages: nat, size: nat)
    ensures Room(pages, size) == pages * size
  {
    if pages > 0 {
      RoomIsProduct(pages - 1, size);
    }
  }

  /** Whatever the collection does, every page read but the last is full. */
  lemma {:induction false} FullPages<C, V>(
    lt: (C, C) -> bool, tables: seq<seq<Item<C, V>>>, size: nat, limit: int, s: Scan<C, V>)
    requires size > 0
    ensures var r := Walk(lt, tables, size, limit, s).scan;
            var rows, pages := |r.rows| - |s.rows|, r.pages - s.pages;
            && pages >= 0 && rows <= Room(pages, size)
            && (if pages == 0 then rows == 0 else Room(pages - 1, size) < rows)
    decreases |tables|
  {
    if !(limit > 0 && s.pages >= limit) && tables != [] {
      var page := Page(lt, tables[0], s.last, size);
      if page != [] && |page| >= size {
        FullPages(lt, tables[1..], size, limit, Advance(s, page));
      }
    }
  }

  /** Without a page limit the loop over a fixed table reads everything above its cursor. */
  lemma {:induction false} WalkFixedTableUnlimited<C(!new), V>(
    lt: (C, C) -> bool, t: seq<Item<C, V>>, tables: seq<seq<Item<C, V>>>, size: nat, limit: int, s: Scan<C, V>)
    requires StrictTotalOrder(lt) && size > 0 && Sorted(lt, t) && limit <= 0
    requires forall i :: 0 <= i < |tables| ==> tables[i] == t
    requires |tables| > |Select(lt, t, s.last)|
    ensures Walk(lt, tables, size, limit, s).scan.rows == s.rows + Select(lt, t, s.last)
    ensures Walk(lt, tables, size, limit, s).stop == Exhausted
    decreases |tables|
  {
    var page := Page(lt, t, s.last, size);
    if page != [] && |page| >= size {
      RestAfterPage(lt, t, s.last, size);
      WalkFixedTableUnlimited(lt, t, tables[1..], size, limit, Advance(s, page));
      assert page + Select(lt, t, s.last)[size..] == Select(lt, t, s.last);
    }
  }

  /** It takes as many page queries as the rows above its cursor fill, and one that finds less than a page. */
  lemma {:induction false} QueriesNeeded<C(!new), V>(
    lt: (C, C) -> bool, t: seq<Item<C, V>>, tables: seq<seq<Item<C, V>>>, size: nat, s: Scan<C, V>)
    requires StrictTotalOrder(lt) && size > 0 && Sorted(lt, t)
    requires forall i :: 0 <= i < |tables| ==> tables[i] == t
    ensures Walk(lt, tables, size, 0, s).stop == SourceFailed <==> |tables| * size <= |Select(lt, t, s.last)|
    decreases |tables|
  {
    if tables != [] {
      var page := Page(lt, t, s.last, size);
      assert |tables| * size == (|tables| - 1) * size + size && (|tables| - 1) * size >= 0;
      if page != [] && |page| >= size {
        RestAfterPage(lt, t, s.last, size);
        QueriesNeeded(lt, t, tables[1..], size, Advance(s, page));
      }
    }
  }

  /**
   With a page limit the loop over a fixed table reads the first rows above its cursor, as many as
   the pages it has left can hold, and reports that nothing is left exactly when it read fewer.
   */
  lemma {:induction false} WalkFixedTableLimited<C(!new), V>(
    lt: (C, C) -> bool, t: seq<Item<C, V>>, tables: seq<seq<Item<C, V>>>, size: nat, limit: int, s: Scan<C, V>)
    requires StrictTotalOrder(lt) && size > 0 && Sorted(lt, t) && limit > 0 && s.pages <= limit
    requires forall i :: 0 <= i < |tables| ==> tables[i] == t
    requires |tables| > |Select(lt, t, s.last)|
    ensures ReadsFirst(lt, t, tables, size, limit, s)
    decreases |tables|
  {
    if s.pages < limit {
      var rest := Select(lt, t, s.last);
      var page := Page(lt, t, s.last, size);
      var room := Room(limit - s.pages, size);
      if page != [] && |page| >= size {
        RestAfterPage(lt, t, s.last, size);
        WalkFixedTableLimited(lt, t, tables[1..], size, limit, Advance(s, page));
        FullPageFirst(lt, t, tables, size, limit, s);
      } else {
        assert room >= size && |rest| < room;
        assert page == rest && rest == rest[..|rest|];
      }
    }
  }

  ghost predicate ReadsFirst<C, V>(
    lt: (C, C) -> bool, t: seq<Item<C, V>>, tables: seq<seq<Item<C, V>>>, size: nat, limit: int, s: Scan<C, V>)
    requires s.pages <= limit
  {
    var rest, room := Select(lt, t, s.last), Room(limit - s.pages, size);
    var r := Walk(lt, tables, size, limit, s);
    && r.scan.rows == s.rows + rest[..Min(|rest|, room)]
    && r.stop == (if |rest| < room then Exhausted else PageLimit)
  }

  lemma FullPageFirst<C(!new), V>(
    lt: (C, C) -> bool, t: seq<Item<C, V>>, tables: seq<seq<Item<C, V>>>, size: nat, limit: int, s: Scan<C, V>)
    requires 0 < size && s.pages < limit && tables != [] && tables[0] == t
    requires |Select(lt, t, s.last)| >= size
    requires var page := Page(lt, t, s.last, size);
             && Select(lt, t, Advance(s, page).last) == Select(lt, t, s.last)[size..]
             && ReadsFirst(lt, t, tables[1..], size, limit, Advance(s, page))
    ensures ReadsFirst(lt, t, tables, size, limit, s)
  {
    var rest, page := Select(lt, t, s.last), Page(lt, t, s.last, size);
    var room, later := Room(limit - s.pages, size), Room(limit - (s.pages + 1), size);
    assert room == size + later && page == rest[..size];
    TakeInTwoSteps(rest, size, room);
    var tail := rest[size..][..Min(|rest[size..]|, later)];
    assert (s.rows + page) + tail == s.rows + (page + tail);
  }

  lemma TakeInTwoSteps<T>(xs: seq<T>, n: nat, room: nat)
    requires n <= |xs| && n <= room
    ensures xs[..n] + xs[n..][..Min(|xs[n..]|, room - n)] == xs[..Min(|xs|, room)]
  {
  }

  // ----- runs that continue one another -----

  /** What is read does not depend on what was read before, only on the cursor. */
  lemma {:induction false} WalkDependsOnCursor<C, V>(
    lt: (C, C) -> bool, tables: seq<seq<Item<C, V>>>, size: nat, s: Scan<C, V>)
    ensures var r, anew := Walk(lt, tables, size, 0, s), Walk(lt, tables, size, 0, Start(s.last));
            && r.scan.rows == s.rows + anew.scan.rows
            && r.scan.last == anew.scan.last && r.stop == anew.stop && r.queries == anew.queries
    decreases |tables|
  {
    if tables != [] {
      var page := Page(lt, tables[0], s.last, size);
      if page != [] && |page| >= size {
        WalkDependsOnCursor(lt, tables[1..], size, Advance(s, page));
        WalkDependsOnCursor(lt, tables[1..], size, Advance(Start(s.last), page));
      }
    }
  }

  /**
   A run that stopped early and a run that continues from its cursor read what one uninterrupted run
   would have read, had it met the same tables in the same order.
   */
  lemma {:induction false} StoppedRunContinues<C, V>(
    lt: (C, C) -> bool, tables: seq<seq<Item<C, V>>>, more: seq<seq<Item<C, V>>>, size: nat, limit: int, s: Scan<C, V>)
    requires Walk(lt, tables, size, limit, s).stop != Exhausted
    ensures var first := Walk(lt, tables, size, limit, s);
            var second := Walk(lt, more, size, 0, Start(first.scan.last));
            && first.queries <= |tables|
            && var one := Walk(lt, tables[..first.queries] + more, size, 0, s);
               one.scan.rows == first.scan.rows + second.scan.rows
               && one.scan.last == second.scan.last && one.stop == second.stop
    decreases |tables|
  {
    var first := Walk(lt, tables, size, limit, s);
    if first.queries == 0 {
      assert tables[..0] + more == more;
      WalkDependsOnCursor(lt, more, size, s);
    } else {
      var page := Page(lt, tables[0], s.last, size);
      StoppedRunContinues(lt, tables[1..], more, size, limit, Advance(s, page));
      assert (tables[..first.queries] + more)[1..] == tables[1..][..first.queries - 1] + more;
    }
  }

  lemma PageAndRest<C(!new), V>(lt: (C, C) -> bool, t: seq<Item<C, V>>, s: Scan<C, V>, size: nat)
    requires StrictTotalOrder(lt) && Sorted(lt, t) && Page(lt, t, s.last, size) != []
    ensures var page := Page(lt, t, s.last, size);
            var next := Advance(s, page);
            && next.rows + Select(lt, t, next.last) == s.rows + Select(lt, t, s.last)
            && (|page| < size ==> Select(lt, t, next.last) == [])
  {
    var page, rest := Page(lt, t, s.last, size), Select(lt, t, s.last);
    RestAfterPage(lt, t, s.last, size);
    assert page + rest[|page|..] == rest;
    assert (s.rows + page) + rest[|page|..] == s.rows + (page + rest[|page|..]);
  }

  /** On a fixed table, what a run has read and what is left above its cursor make up the whole. */
  lemma {:induction false} ReadAndRest<C(!new), V>(
    lt: (C, C) -> bool, t: seq<Item<C, V>>, tables: seq<seq<Item<C, V>>>, size: nat, limit: int, s: Scan<C, V>)
    requires StrictTotalOrder(lt) && Sorted(lt, t) && size > 0
    requires forall i :: 0 <= i < |tables| ==> tables[i] == t
    ensures var r := Walk(lt, tables, size, limit, s);
            && r.scan.rows + Select(lt, t, r.scan.last) == s.rows + Select(lt, t, s.last)
            && (r.stop == Exhausted ==> Select(lt, t, r.scan.last) == [])
    decreases |tables|
  {
    if !(limit > 0 && s.pages >= limit) && tables != [] {
      var page := Page(lt, t, s.last, size);
      if page != [] {
        PageAndRest(lt, t, s, size);
        if |page| >= size {
          ReadAndRest(lt, t, tables[1..], size, limit, Advance(s, page));
        }
      }
    }
  }
}
