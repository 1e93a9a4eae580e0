/**
 Compare, repair, verify (`local_demo.py`): orders are made, an index is built from them with orders
 left out and one made stale, the index is compared, repaired from the report, and compared again.
 */
module LocalProof {
  import opened Arithmetic
  import opened Common
  import opened Decimal
  import opened DriftReports
  import opened Ordering
  import opened Orders

  /** An index document: the order it was written from and the time of the write. */
  datatype Doc = Doc(order: Order, indexedAt: string)

  type Index = map<string, Doc>

  const REPAIRED_AT := "2026-06-12T12:00:10+00:00"

  /** What the comparisons see of an index. */
  function Contents(index: Index): map<string, Order> {
    map id | id in index :: index[id].order
  }

  // ----- the made-up source and the drifted index -----

  /** The order at a position, counted from 1; `time` is the text of the start time plus so many seconds. */
  function SourceOrder(position: nat, time: int -> string): Order {
    Order("order-" + ZeroPadded(position, 4), Some("paid"), Some(1000 + position * 137), Some("USD"), Some(1),
          Some(time(position * 3)))
  }

  function SourceOrders(count: int, time: int -> string): seq<Order> {
    seq(if count < 0 then 0 else count, i requires 0 <= i => SourceOrder(i + 1, time))
  }

  method MakeSourceOrders(count: int, time: int -> string) returns (orders: seq<Order>)
    ensures orders == SourceOrders(count, time)
    ensures |orders| == (if count < 0 then 0 else count)
    ensures forall i :: 0 <= i < |orders| ==>
              orders[i] == Order("order-" + ZeroPadded(i + 1, 4), Some("paid"), Some(1137 + 137 * i), Some("USD"),
                                 Some(1), Some(time(3 * i + 3)))
  {
    orders := [];
    var position := 1;
    while position < count + 1
      invariant |orders| == position - 1 && (count < 0 ==> orders == []) && (count >= 0 ==> position <= count + 1)
      invariant forall i :: 0 <= i < |orders| ==> orders[i] == SourceOrder(i + 1, time)
    {
      orders := orders + [SourceOrder(position, time)];
      position := position + 1;
    }
  }

  lemma SourceIdsAreDistinct(count: int, time: int -> string)
    ensures DistinctIds(SourceOrders(count, time))
  {
    var orders := SourceOrders(count, time);
    forall i, j | 0 <= i < j < |orders| ensures orders[i].id != orders[j].id {
      var m, n := ZeroPadded(i + 1, 4), ZeroPadded(j + 1, 4);
      if "order-" + m == "order-" + n {
        assert m == ("order-" + m)[6..] && n == ("order-" + n)[6..];
        ZeroPaddedInjective(i + 1, j + 1, 4);
      }
    }
  }

  predicate LeftOut(position: int, skip: int) {
    skip != 0 && position % skip == 0
  }

  /** The documents written for the first orders: every `skip`-th is left out. */
  function Indexed(source: seq<Order>, skip: int): Index {
    if source == [] then map[]
    else
      var last := source[|source| - 1];
      var rest := Indexed(source[..|source| - 1], skip);
      if LeftOut(|source|, skip) then rest else rest[last.id := Doc(last, OrEmpty(last.updatedAt))]
  }

  function OrEmpty(t: Option<string>): string {
    if t.Some? then t.value else ""
  }

  function StaleCopy(o: Order): Doc
    requires o.amount.Some?
  {
    Doc(o.(amount := Some(o.amount.value - 250), version := Some(0)), OrEmpty(o.updatedAt))
  }

  /** Which order is made stale: the third, or the last of fewer. */
  function StalePosition(source: seq<Order>): (m: nat)
    requires source != []
    ensures m < |source|
  {
    if |source| - 1 < 2 then |source| - 1 else 2
  }

  function Drifted(source: seq<Order>, skip: int): Index
    requires forall o :: o in source ==> o.amount.Some?
  {
    if source == [] then map[]
    else
      var stale := source[StalePosition(source)];
      Indexed(source, skip)[stale.id := StaleCopy(stale)]
  }

  method MakeDriftedIndex(source: seq<Order>, skip: int) returns (index: Index)
    requires forall o :: o in source ==> o.amount.Some?
    ensures index == Drifted(source, skip)
  {
    index := map[];
    for i := 0 to |source|
      invariant index == Indexed(source[..i], skip)
    {
      assert source[..i + 1][..i] == source[..i];
      if skip != 0 && (i + 1) % skip == 0 {
        continue;
      }
      index := index[source[i].id := Doc(source[i], OrEmpty(source[i].updatedAt))];
    }
    assert source[..|source|] == source;
    if source != [] {
      var stale := source[StalePosition(source)];
      index := index[stale.id := StaleCopy(stale)];
    }
  }

  lemma {:induction false} IndexedIds(source: seq<Order>, skip: int)
    ensures forall id :: id in Indexed(source, skip) ==> exists o :: o in source && o.id == id
  {
    if source != [] {
      var front, last := source[..|source| - 1], source[|source| - 1];
      IndexedIds(front, skip);
      assert last in source;
      forall id | id in Indexed(front, skip) ensures exists o :: o in source && o.id == id {
        var o :| o in front && o.id == id;
        assert o in source;
      }
    }
  }

  // ----- what the drifted index holds -----

  /** The position, counted from 0, of the order that is made stale. */
  ghost predicate MadeStale(source: seq<Order>, i: int) {
    0 <= i < |source| && (i == 2 || (i < 2 && i == |source| - 1))
  }

  /** Every so many orders, counted from 1, one is left out. */
  ghost predicate IsLeftOut(i: int, skip: int) {
    skip != 0 && (i + 1) % Absolute(skip) == 0
  }

  lemma {:induction false} IndexedDocs(source: seq<Order>, skip: int, i: int)
    requires DistinctIds(source) && 0 <= i < |source|
    ensures source[i].id in Indexed(source, skip) <==> !IsLeftOut(i, skip)
    ensures !IsLeftOut(i, skip) ==> Indexed(source, skip)[source[i].id] == Doc(source[i], OrEmpty(source[i].updatedAt))
  {
    var n := |source| - 1;
    if skip != 0 {
      SignDoesNotMatter(n + 1, skip);
    }
    if i < n {
      IndexedDocs(source[..n], skip, i);
    } else {
      IndexedIds(source[..n], skip);
      assert forall o :: o in source[..n] ==> o.id != source[n].id;
    }
  }

  /**
   The document of each order in the drifted index: the one made stale has 250 cents less and version 0,
   of the others those left out have none.
   */
  lemma DriftedDocs(source: seq<Order>, skip: int, i: int)
    requires DistinctIds(source) && 0 <= i < |source| && forall o :: o in source ==> o.amount.Some?
    ensures var o, index := source[i], Drifted(source, skip);
            && (o.id in index <==> MadeStale(source, i) || !IsLeftOut(i, skip))
            && (o.id in index ==> index[o.id].indexedAt == if o.updatedAt.Some? then o.updatedAt.value else "")
            && (MadeStale(source, i) ==>
                  index[o.id].order == o.(amount := Some(o.amount.value - 250), version := Some(0)))
            && (!MadeStale(source, i) && !IsLeftOut(i, skip) ==> index[o.id].order == o)
  {
    IndexedDocs(source, skip, i);
    var m := StalePosition(source);
    assert MadeStale(source, m) && (MadeStale(source, i) ==> i == m);
    assert i != m ==> source[i].id != source[m].id;
    assert source[i] in source;
  }

  /**
   What the first comparison of the proof reports: missing are the orders left out, apart from the one
   made stale, which is the only stale one, in amount and version.
   */
  lemma FirstComparison(count: int, skip: int, time: int -> string)
    ensures var source := SourceOrders(count, time);
            var report := Compared(source, Drifted(source, skip));
            && (forall o :: o in report.missing <==>
                  exists i :: 0 <= i < |source| && o == source[i] && IsLeftOut(i, skip) && !MadeStale(source, i))
            && (forall x :: x in report.stale <==>
                  exists i :: MadeStale(source, i) && x == StaleEntryOf(source[i]))
  {
    var source := SourceOrders(count, time);
    var index := Contents(Drifted(source, skip));
    SourceIdsAreDistinct(count, time);
    DriftedContents(source, skip);
    MissingAt(source, skip, index);
    StaleAt(source, index);
  }

  lemma DriftedContents(source: seq<Order>, skip: int)
    requires DistinctIds(source) && forall o :: o in source ==> o.amount.Some?
    ensures forall i :: 0 <= i < |source| ==>
              var o, index := source[i], Contents(Drifted(source, skip));
              && o.amount.Some? && (o.id in index <==> MadeStale(source, i) || !IsLeftOut(i, skip))
              && (o.id in index ==> index[o.id] == if MadeStale(source, i) then StaleCopy(o).order else o)
  {
    forall i | 0 <= i < |source|
      ensures var o, index := source[i], Contents(Drifted(source, skip));
              && o.amount.Some? && (o.id in index <==> MadeStale(source, i) || !IsLeftOut(i, skip))
              && (o.id in index ==> index[o.id] == if MadeStale(source, i) then StaleCopy(o).order else o)
    {
      assert source[i] in source;
      DriftedDocs(source, skip, i);
    }
  }

  lemma MissingAt(source: seq<Order>, skip: int, index: map<string, Order>)
    requires forall i :: 0 <= i < |source| ==>
               (source[i].id in index <==> MadeStale(source, i) || !IsLeftOut(i, skip))
    ensures forall o :: o in MissingOf(source, index) <==>
              exists i :: 0 <= i < |source| && o == source[i] && IsLeftOut(i, skip) && !MadeStale(source, i)
  {
    MissingMembers(source, index);
  }

  /** The entry for an order made stale. */
  ghost function StaleEntryOf(o: Order): Stale
    requires o.amount.Some?
  {
    Stale(o, o.(amount := Some(o.amount.value - 250), version := Some(0)), ["amount_cents", "version"])
  }

  lemma CopyDiffers(o: Order)
    requires o.amount.Some? && o.version == Some(1)
    ensures !SameFields(o, StaleCopy(o).order)
    ensures Stale(o, StaleCopy(o).order, DifferingFields(o, StaleCopy(o).order)) == StaleEntryOf(o)
  {
  }

  lemma StaleAt(source: seq<Order>, index: map<string, Order>)
    requires forall o :: o in source ==> o.amount.Some? && o.version == Some(1)
    requires forall i :: 0 <= i < |source| && source[i].id in index ==>
               index[source[i].id] == if MadeStale(source, i) then StaleCopy(source[i]).order else source[i]
    requires forall i :: MadeStale(source, i) ==> source[i].id in index
    ensures forall x :: x in StaleOf(source, index) <==>
              exists i :: MadeStale(source, i) && x == StaleEntryOf(source[i])
  {
    StaleMembers(source, index);
    forall x | x in StaleOf(source, index) ensures exists i :: MadeStale(source, i) && x == StaleEntryOf(source[i]) {
      var i :| 0 <= i < |source| && source[i] == x.source;
      CopyDiffers(source[i]);
      assert MadeStale(source, i);
    }
    forall i | MadeStale(source, i) ensures StaleEntryOf(source[i]) in StaleOf(source, index) {
      assert source[i] in source;
      CopyDiffers(source[i]);
    }
  }

  /** The drifted index always drifts, and holds no documents of other orders. */
  lemma DriftedIndexDrifts(source: seq<Order>, skip: int)
    requires source != [] && forall o :: o in source ==> o.amount.Some?
    ensures StaleOf(source, Contents(Drifted(source, skip))) != []
    ensures forall id :: id in Drifted(source, skip) ==> exists o :: o in source && o.id == id
  {
    var index := Drifted(source, skip);
    var stale := source[StalePosition(source)];
    var copy := StaleCopy(stale).order;
    assert stale in source && Contents(index)[stale.id] == copy && !SameFields(stale, copy);
    StaleMembers(source, Contents(index));
    assert Stale(stale, copy, DifferingFields(stale, copy)) in StaleOf(source, Contents(index));
    IndexedIds(source, skip);
  }

  // ----- repair -----

  /** What a comparison of orders with an index reports. */
  datatype Existence = Existence(missing: seq<Order>, stale: seq<Stale>) {
    predicate Healthy() { StatusOf(CHECK_COMPLETE, |missing| + |stale|) == Status.Healthy }
  }

  function Compared(source: seq<Order>, index: Index): Existence {
    Existence(MissingOf(source, Contents(index)), StaleOf(source, Contents(index)))
  }

  function Candidates(report: Existence): set<string> {
    (set o | o in report.missing :: o.id) + (set x | x in report.stale :: x.source.id)
  }

  /** The candidates' documents are written anew from the source. */
  function Repaired(source: seq<Order>, index: Index, ids: set<string>): Index
    requires ids <= ById(source).Keys
  {
    map id | id in index.Keys + ids :: if id in ids then Doc(ById(source)[id], REPAIRED_AT) else index[id]
  }

  /** Fails, as a dictionary lookup does, when the report names an order that the source does not have. */
  method RepairIndexFromReport(source: seq<Order>, index: Index, report: Existence)
    returns (r: Option<(Index, seq<string>)>)
    ensures r.None? <==> !(Candidates(report) <= ById(source).Keys)
    ensures r.Some? ==> SortedListing(Candidates(report), r.value.1)
    ensures r.Some? ==> r.value.0 == Repaired(source, index, Candidates(report))
  {
    var byId := ById(source);
    var candidates := SortedStrings(Candidates(report));
    var repaired := index;
    ghost var done: set<string> := {};
    for i := 0 to |candidates|
      invariant done <= byId.Keys && repaired == Repaired(source, index, done)
      invariant forall id :: id in done <==> id in candidates[..i]
    {
      var id := candidates[i];
      assert candidates[..i + 1] == candidates[..i] + [id];
      assert id in Candidates(report);
      if id !in byId {
        return None;
      }
      RepairedOneMore(source, index, done, id);
      done := done + {id};
      repaired := repaired[id := Doc(byId[id], REPAIRED_AT)];
    }
    assert candidates[..|candidates|] == candidates;
    assert done == Candidates(report);
    r := Some((repaired, candidates));
  }

  lemma RepairedOneMore(source: seq<Order>, index: Index, ids: set<string>, id: string)
    requires ids + {id} <= ById(source).Keys
    ensures Repaired(source, index, ids + {id})
            == Repaired(source, index, ids)[id := Doc(ById(source)[id], REPAIRED_AT)]
  {
  }

  lemma DriftedOrderIsCandidate(source: seq<Order>, index: Index, o: Order)
    requires o in source && !(o.id in index && SameFields(o, index[o.id].order))
    ensures o.id in Candidates(Compared(source, index))
  {
    var report := Compared(source, index);
    if o.id in index {
      var t := index[o.id].order;
      StaleMembers(source, Contents(index));
      assert Stale(o, t, DifferingFields(o, t)) in report.stale;
    } else {
      MissingMembers(source, Contents(index));
      assert o in report.missing;
    }
  }

  lemma CandidateIsDriftedOrder(source: seq<Order>, index: Index, id: string) returns (o: Order)
    requires id in Candidates(Compared(source, index))
    ensures o in source && o.id == id && !(id in index && SameFields(o, index[id].order))
  {
    var report := Compared(source, index);
    if p :| p in report.missing && p.id == id {
      MissingMembers(source, Contents(index));
      o := p;
    } else {
      var x :| x in report.stale && x.source.id == id;
      StaleMembers(source, Contents(index));
      o := x.source;
    }
  }

  /** A comparison reports source orders only, so repairing from its report never fails. */
  lemma CandidatesAreSourceOrders(source: seq<Order>, index: Index)
    ensures Candidates(Compared(source, index)) <= ById(source).Keys
  {
    DocumentsOf(source);
    forall id | id in Candidates(Compared(source, index)) ensures id in ById(source) {
      var o := CandidateIsDriftedOrder(source, index, id);
    }
  }

  /**
   Whatever the index was, the comparison after the repair is healthy if and only if source rows with
   one id agree: of several rows with an id the repair can write only one.
   */
  lemma RepairConvergesIff(source: seq<Order>, index: Index)
    ensures Candidates(Compared(source, index)) <= ById(source).Keys
    ensures (forall o :: o in source ==> o.id in ById(source))
    ensures Compared(source, Repaired(source, index, Candidates(Compared(source, index)))).Healthy()
            <==> forall o :: o in source ==> SameFields(o, ById(source)[o.id])
  {
    CandidatesAreSourceOrders(source, index);
    DocumentsOf(source);
    var ids := Candidates(Compared(source, index));
    var after := Repaired(source, index, ids);
    forall o | o in source
      ensures o.id in Contents(after) && (SameFields(o, Contents(after)[o.id]) <==> SameFields(o, ById(source)[o.id]))
    {
      if o.id !in ids {
        var p := ById(source)[o.id];
        if !(o.id in index && SameFields(o, index[o.id].order)) { DriftedOrderIsCandidate(source, index, o); }
        if !(p.id in index && SameFields(p, index[p.id].order)) { DriftedOrderIsCandidate(source, index, p); }
      }
    }
    NoDriftMeansSame(source, Contents(after));
  }

  lemma RepairConverges(source: seq<Order>, index: Index)
    requires DistinctIds(source)
    ensures Candidates(Compared(source, index)) <= ById(source).Keys
    ensures Compared(source, Repaired(source, index, Candidates(Compared(source, index)))).Healthy()
  {
    RepairConvergesIff(source, index);
    DocumentsOf(source);
  }

  /**
   The repair is minimal: documents that were not reported stay as they are, and every reported one
   was missing or differed from the source's order and is now that order.
   */
  lemma RepairIsMinimal(source: seq<Order>, index: Index)
    requires DistinctIds(source)
    ensures var ids := Candidates(Compared(source, index));
            && ids <= ById(source).Keys
            && var after := Repaired(source, index, ids);
               && after.Keys == index.Keys + ids
               && (forall id :: id in index && id !in ids ==> after[id] == index[id])
               && (forall id :: id in ids ==>
                     after[id].order == ById(source)[id] && after[id].indexedAt == "2026-06-12T12:00:10+00:00"
                     && (id !in index || !SameFields(ById(source)[id], index[id].order)))
  {
    CandidatesAreSourceOrders(source, index);
    DocumentsOf(source);
    var ids := Candidates(Compared(source, index));
    forall id | id in ids ensures id !in index || !SameFields(ById(source)[id], index[id].order) {
      var o := CandidateIsDriftedOrder(source, index, id);
    }
  }

  /** The repair is idempotent: a second one has no candidates and changes nothing. */
  lemma RepairTwice(source: seq<Order>, index: Index)
    requires DistinctIds(source)
    ensures var ids := Candidates(Compared(source, index));
            && ids <= ById(source).Keys
            && var after := Repaired(source, index, ids);
               && Candidates(Compared(source, after)) == {}
               && Repaired(source, after, {}) == after
  {
    RepairConverges(source, index);
  }

  // ----- the aggregate after the repair -----

  /** The documents in the order of the given keys, as `list(index.values())` lists them in some order. */
  function Values(keys: seq<string>, index: Index): seq<Order>
    requires forall i :: 0 <= i < |keys| ==> keys[i] in index
  {
    seq(|keys|, i requires 0 <= i < |keys| => index[keys[i]].order)
  }

  ghost predicate Lists(keys: seq<string>, ids: set<string>) {
    Distinct(keys) && forall id :: id in ids <==> id in keys
  }

  lemma SumIsAssociative(x: Summary, y: Summary, z: Summary)
    ensures Sum(Sum(x, y), z) == Sum(x, Sum(y, z)) && Sum(Sum(x, y), z) == Sum(Sum(x, z), y)
  {
  }

  lemma LastOfConcat<T>(xs: seq<T>, ys: seq<T>)
    requires ys != []
    ensures xs + ys == (xs + ys[..|ys| - 1]) + [ys[|ys| - 1]]
  {
  }

  lemma AroundElement<T>(xs: seq<T>, i: nat)
    requires i < |xs|
    ensures xs == (xs[..i] + [xs[i]]) + xs[i + 1..]
  {
  }

  lemma {:induction false} SummarizeConcat(xs: seq<Order>, ys: seq<Order>)
    ensures Summarize(xs + ys) == Sum(Summarize(xs), Summarize(ys))
  {
    if ys == [] {
      assert xs + ys == xs;
    } else {
      var front, last := ys[..|ys| - 1], ys[|ys| - 1];
      SummarizeConcat(xs, front);
      LastOfConcat(xs, ys);
      SummarizeOneMore(xs + front, last);
      SumIsAssociative(Summarize(xs), Summarize(front), Summary(1, OrZero(last.amount)));
    }
  }

  function Without<T>(xs: seq<T>, i: nat): seq<T>
    requires i < |xs|
  {
    xs[..i] + xs[i + 1..]
  }

  lemma SummarizeTakeOut(xs: seq<Order>, i: nat)
    requires i < |xs|
    ensures Summarize(xs) == Sum(Summarize(Without(xs, i)), Summary(1, OrZero(xs[i].amount)))
  {
    var front, back := xs[..i], xs[i + 1..];
    SummarizeConcat(front + [xs[i]], back);
    SummarizeConcat(front, back);
    SummarizeOneMore(front, xs[i]);
    AroundElement(xs, i);
    SumIsAssociative(Summarize(front), Summary(1, OrZero(xs[i].amount)), Summarize(back));
  }

  lemma SummarizeOneMore(xs: seq<Order>, o: Order)
    ensures Summarize(xs + [o]) == Sum(Summarize(xs), Summary(1, OrZero(o.amount)))
  {
    assert (xs + [o])[..|xs|] == xs;
  }

  /** Listed in whatever order, documents with the source's ids and amounts have the source's summary. */
  lemma {:induction false} SummaryOfListing(source: seq<Order>, keys: seq<string>, index: Index)
    requires DistinctIds(source) && Lists(keys, ById(source).Keys)
    requires forall i :: 0 <= i < |keys| ==> keys[i] in index
    requires forall o :: o in source ==> o.id in index && index[o.id].order.amount == o.amount
    ensures Summarize(Values(keys, index)) == Summarize(source)
    decreases |source|
  {
    assert keys != [] ==> keys[0] in keys;
    if source == [] {
      assert Values(keys, index) == [];
    } else {
      var front, last := source[..|source| - 1], source[|source| - 1];
      DocumentsOf(front);
      assert last in source && last.id in keys;
      var i :| 0 <= i < |keys| && keys[i] == last.id;
      var rest := Without(keys, i);
      ListsTheRest(source, keys, i);
      ValuesWithout(keys, index, i);
      assert forall o :: o in front ==> o in source;
      assert Summarize(Values(rest, index)) == Summarize(front) by { SummaryOfListing(front, rest, index); }
      SummarizeTakeOut(Values(keys, index), i);
      assert OrZero(Values(keys, index)[i].amount) == OrZero(last.amount);
    }
  }

  lemma ValuesWithout(keys: seq<string>, index: Index, i: nat)
    requires forall k :: 0 <= k < |keys| ==> keys[k] in index
    requires i < |keys|
    ensures forall k :: 0 <= k < |Without(keys, i)| ==> Without(keys, i)[k] in index
    ensures Values(Without(keys, i), index) == Without(Values(keys, index), i)
  {
  }

  lemma ListsTheRest(source: seq<Order>, keys: seq<string>, i: nat)
    requires source != [] && DistinctIds(source) && Lists(keys, ById(source).Keys)
    requires i < |keys| && keys[i] == source[|source| - 1].id
    ensures Lists(Without(keys, i), ById(source[..|source| - 1]).Keys)
  {
    var front, last := source[..|source| - 1], source[|source| - 1];
    DocumentsOf(front);
    assert last.id !in ById(front);
    ListWithout(keys, ById(source).Keys, i);
    assert ById(front).Keys == ById(source).Keys - {last.id};
  }

  ghost predicate Distinct(keys: seq<string>) {
    forall i, j :: 0 <= i < j < |keys| ==> keys[i] != keys[j]
  }

  lemma StillDistinct(keys: seq<string>, i: nat)
    requires Distinct(keys) && i < |keys|
    ensures Distinct(Without(keys, i)) && keys[i] !in Without(keys, i)
  {
    var rest := Without(keys, i);
    assert forall k :: 0 <= k < |rest| ==> rest[k] == keys[if k < i then k else k + 1];
  }

  lemma StillListed(keys: seq<string>, i: nat, id: string)
    requires i < |keys| && id != keys[i]
    ensures id in keys <==> id in Without(keys, i)
  {
    assert keys == (keys[..i] + [keys[i]]) + keys[i + 1..] by { AroundElement(keys, i); }
  }

  lemma ListWithout(keys: seq<string>, ids: set<string>, i: nat)
    requires Lists(keys, ids) && i < |keys|
    ensures Lists(Without(keys, i), ids - {keys[i]})
  {
    StillDistinct(keys, i);
    forall id ensures id in ids - {keys[i]} <==> id in Without(keys, i) {
      if id != keys[i] {
        StillListed(keys, i, id);
      }
    }
  }

  lemma {:induction false} CountOf(orders: seq<Order>)
    ensures Summarize(orders).count == |orders|
  {
    if orders != [] {
      CountOf(orders[..|orders| - 1]);
    }
  }

  /**
   After the repair the aggregate check is healthy if and only if the index held no documents of
   other orders: the repair removes none.
   */
  lemma AggregateAfterRepair(source: seq<Order>, index: Index, keys: seq<string>)
    requires DistinctIds(source)
    requires Candidates(Compared(source, index)) <= ById(source).Keys
    requires Lists(keys, Repaired(source, index, Candidates(Compared(source, index))).Keys)
    ensures var after := Repaired(source, index, Candidates(Compared(source, index)));
            && (forall i :: 0 <= i < |keys| ==> keys[i] in after)
            && (AggregateMismatches(Summarize(source), Summarize(Values(keys, after))) == []
                <==> index.Keys <= ById(source).Keys)
  {
    var ids := Candidates(Compared(source, index));
    var after := Repaired(source, index, ids);
    RepairConverges(source, index);
    NoDriftMeansSame(source, Contents(after));
    DocumentsOf(source);
    assert forall i :: 0 <= i < |keys| ==> keys[i] in keys;
    assert ById(source).Keys <= after.Keys;
    if index.Keys <= ById(source).Keys {
      assert after.Keys == ById(source).Keys;
      SummaryOfListing(source, keys, after);
    } else {
      CountOf(source);
      CountOf(Values(keys, after));
      SizeOfListing(keys, after.Keys);
      IdsOf(source);
      var x :| x in index.Keys && x !in ById(source).Keys;
      SmallerSubset(ById(source).Keys, after.Keys, x);
    }
  }

  lemma {:induction false} SizeOfListing(keys: seq<string>, ids: set<string>)
    requires Lists(keys, ids)
    ensures |keys| == |ids|
  {
    if keys == [] {
      assert ids == {};
    } else {
      ListWithout(keys, ids, |keys| - 1);
      SizeOfListing(Without(keys, |keys| - 1), ids - {keys[|keys| - 1]});
      assert keys[|keys| - 1] in keys;
    }
  }

  lemma {:induction false} IdsOf(source: seq<Order>)
    requires DistinctIds(source)
    ensures |ById(source).Keys| == |source|
  {
    if source != [] {
      var front, last := source[..|source| - 1], source[|source| - 1];
      IdsOf(front);
      DocumentsOf(front);
      assert last.id !in ById(front);
      assert ById(source).Keys == ById(front).Keys + {last.id};
    }
  }

  lemma SmallerSubset(a: set<string>, b: set<string>, x: string)
    requires a <= b && x in b && x !in a
    ensures |a| < |b|
  {
    Cardinality(a, b - {x});
  }

  lemma {:induction false} Cardinality(a: set<string>, b: set<string>)
    requires a <= b
    ensures |a| <= |b|
  {
    if a != {} {
      var x :| x in a;
      Cardinality(a - {x}, b - {x});
    }
  }

  // ----- the whole proof -----

  datatype ProofResult = ProofResult(
    source: seq<Order>, drifted: Index, repaired: Index, repairedIds: seq<string>,
    before: Existence, after: Existence, afterAggregate: seq<string>)
  {
    predicate Passed() { !before.Healthy() && after.Healthy() && afterAggregate == [] }
  }

  /** `compare_paid_orders_to_index` */
  method Compare(source: seq<Order>, index: Index) returns (r: Existence)
    ensures r == Compared(source, index)
  {
    var missing, stale := CompareOrders(source, Contents(index));
    r := Existence(missing, stale);
  }

  /** `summarize_paid_orders(list(index.values()))`: the order in which the values are listed does not matter. */
  method SummarizeIndex(index: Index) returns (r: Summary)
    ensures forall keys :: Lists(keys, index.Keys) ==> Listed(keys, index) && r == Summarize(Values(keys, index))
  {
    var listed := SortedStrings(index.Keys);
    assert forall i :: 0 <= i < |listed| ==> listed[i] in listed;
    SortedListingLists(index.Keys, listed);
    r := Summarize(Values(listed, index));
    forall keys | Lists(keys, index.Keys) ensures Listed(keys, index) && r == Summarize(Values(keys, index)) {
      ListedIn(keys, index.Keys, index);
      OrderDoesNotMatter(listed, keys, index.Keys, index);
    }
  }

  ghost predicate Listed(keys: seq<string>, index: Index) {
    forall i :: 0 <= i < |keys| ==> keys[i] in index
  }

  lemma SortedListingLists(ids: set<string>, keys: seq<string>)
    requires SortedListing(ids, keys)
    ensures Lists(keys, ids)
  {
    forall i, j | 0 <= i < j < |keys| ensures keys[i] != keys[j] {
      LessTrichotomy(keys[i], keys[j]);
    }
  }

  lemma ListedIn(keys: seq<string>, ids: set<string>, index: Index)
    requires Lists(keys, ids) && ids <= index.Keys
    ensures Listed(keys, index)
  {
    forall i | 0 <= i < |keys| ensures keys[i] in index {
      assert keys[i] in keys;
    }
  }

  /** Two listings of the same documents have the same summary. */
  lemma {:induction false} OrderDoesNotMatter(keys: seq<string>, others: seq<string>, ids: set<string>, index: Index)
    requires Lists(keys, ids) && Lists(others, ids) && ids <= index.Keys
    requires Listed(keys, index) && Listed(others, index)
    ensures Summarize(Values(keys, index)) == Summarize(Values(others, index))
    decreases |keys|
  {
    NothingListed(keys, ids);
    NothingListed(others, ids);
    if keys != [] {
      var last := |keys| - 1;
      assert keys[last] in keys && keys[last] in others;
      var i :| 0 <= i < |others| && others[i] == keys[last];
      var rest := ids - {keys[last]};
      ListWithout(keys, ids, last);
      ListWithout(others, ids, i);
      ListedIn(Without(keys, last), rest, index);
      ListedIn(Without(others, i), rest, index);
      OrderDoesNotMatter(Without(keys, last), Without(others, i), rest, index);
      TakenOut(keys, last, index);
      TakenOut(others, i, index);
    }
  }

  lemma NothingListed(keys: seq<string>, ids: set<string>)
    requires Lists(keys, ids)
    ensures keys == [] <==> ids == {}
  {
    if keys != [] {
      assert keys[0] in keys;
    }
  }

  lemma TakenOut(keys: seq<string>, i: nat, index: Index)
    requires i < |keys| && Listed(keys, index) && Listed(Without(keys, i), index)
    ensures Summarize(Values(keys, index))
            == Sum(Summarize(Values(Without(keys, i), index)), Summary(1, OrZero(index[keys[i]].order.amount)))
  {
    ValuesWithout(keys, index, i);
    SummarizeTakeOut(Values(keys, index), i);
  }

  lemma SomeListing(ids: set<string>) returns (keys: seq<string>)
    ensures Lists(keys, ids)
  {
    keys := [];
    var rest := ids;
    while rest != {}
      invariant rest <= ids && Lists(keys, ids - rest)
      decreases rest
    {
      var x :| x in rest;
      rest := rest - {x};
      assert ids - rest == ids - (rest + {x}) + {x};
      keys := keys + [x];
    }
    assert ids - rest == ids;
  }

  /** The drifted index has documents of the source's orders only, and is healthy only if there are none. */
  lemma DriftedIndexIsHealthyIff(source: seq<Order>, skip: int)
    requires forall o :: o in source ==> o.amount.Some?
    ensures Drifted(source, skip).Keys <= ById(source).Keys
    ensures Compared(source, Drifted(source, skip)).Healthy() <==> source == []
  {
    if source != [] {
      DriftedIndexDrifts(source, skip);
      DocumentsOf(source);
    }
  }

  /** The local proof passes for every skip value, and for every order count that gives any orders. */
  method RunLocalProof(count: int, skip: int, time: int -> string) returns (r: Option<ProofResult>)
    ensures r.Some? && r.value.source == SourceOrders(count, time) && r.value.drifted == Drifted(r.value.source, skip)
    ensures var p := r.value;
            && p.before == Compared(p.source, p.drifted) && p.after == Compared(p.source, p.repaired)
            && Candidates(p.before) <= ById(p.source).Keys
            && p.repaired == Repaired(p.source, p.drifted, Candidates(p.before))
            && SortedListing(Candidates(p.before), p.repairedIds)
    ensures r.value.Passed() <==> count >= 1
    ensures r.value.Passed() ==>
              var p := r.value;
              && (p.before.missing != [] || p.before.stale != []) && p.after.missing == [] && p.after.stale == []
              && p.afterAggregate == []
  {
    var source := MakeSourceOrders(count, time);
    SourceIdsAreDistinct(count, time);
    var drifted := MakeDriftedIndex(source, skip);
    var before := Compare(source, drifted);
    var repair := RepairIndexFromReport(source, drifted, before);
    RepairConverges(source, drifted);
    if repair.None? {
      return None;
    }
    var (repaired, ids) := repair.value;
    var after := Compare(source, repaired);
    var summary := SummarizeIndex(repaired);
    ghost var keys := SomeListing(repaired.Keys);
    var afterAggregate := AggregateMismatches(Summarize(source), summary);
    AggregateAfterRepair(source, drifted, keys);
    DriftedIndexIsHealthyIff(source, skip);
    r := Some(ProofResult(source, drifted, repaired, ids, before, after, afterAggregate));
  }
}
