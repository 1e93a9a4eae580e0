/** Orders, and the row-by-row comparison of source orders with a derived view. */
module Orders {
  import opened Common
  import opened Listing

  /** An order row or document; a document may lack any of its fields. */
  datatype Order = Order(
    id: string, status: Option<string>, amount: Option<int>, currency: Option<string>, version: Option<int>,
    updatedAt: Option<string>)

  datatype Stale = Stale(source: Order, target: Order, fields: seq<string>)

  /** `compare_order_fields` */
  function DifferingFields(source: Order, target: Order): seq<string> {
    (if source.status != target.status then ["status"] else [])
    + (if source.amount != target.amount then ["amount_cents"] else [])
    + (if source.currency != target.currency then ["currency"] else [])
    + (if source.version != target.version then ["version"] else [])
  }

  predicate SameFields(source: Order, target: Order) {
    source.status == target.status && source.amount == target.amount
    && source.currency == target.currency && source.version == target.version
  }

  /** The source orders without a document. */
  function MissingOf(sources: seq<Order>, index: map<string, Order>): seq<Order> {
    if sources == [] then []
    else
      var last := sources[|sources| - 1];
      MissingOf(sources[..|sources| - 1], index) + (if last.id in index then [] else [last])
  }

  /** The source orders whose document differs, with the document and the fields. */
  function StaleOf(sources: seq<Order>, index: map<string, Order>): seq<Stale> {
    if sources == [] then []
    else
      var last := sources[|sources| - 1];
      StaleOf(sources[..|sources| - 1], index)
      + (if last.id in index && !SameFields(last, index[last.id])
         then [Stale(last, index[last.id], DifferingFields(last, index[last.id]))] else [])
  }

  /** The comparison loop of `compare_paid_orders_to_index`; the checksum drilldown runs the same loop. */
  method CompareOrders(sources: seq<Order>, index: map<string, Order>) returns (missing: seq<Order>, stale: seq<Stale>)
    ensures missing == MissingOf(sources, index)
    ensures stale == StaleOf(sources, index)
  {
    missing, stale := [], [];
    for i := 0 to |sources|
      invariant missing == MissingOf(sources[..i], index)
      invariant stale == StaleOf(sources[..i], index)
    {
      assert sources[..i + 1][..i] == sources[..i];
      var source := sources[i];
      if source.id !in index {
        missing := missing + [source];
        continue;
      }
      var target := index[source.id];
      var fields := DifferingFields(source, target);
      if fields != [] {
        stale := stale + [Stale(source, target, fields)];
      }
    }
    assert sources[..|sources|] == sources;
  }

  // ----- what the lists hold -----

  /** The order has no document. */
  ghost function MissingEntry(index: map<string, Order>): Order -> Option<Order> {
    (o: Order) => if o.id in index then None else Some(o)
  }

  /** Its document differs in a compared field. */
  ghost function StaleEntry(index: map<string, Order>): Order -> Option<Stale> {
    (o: Order) =>
      if o.id in index
         && (|| o.status != index[o.id].status || o.amount != index[o.id].amount
             || o.currency != index[o.id].currency || o.version != index[o.id].version)
      then Some(Stale(o, index[o.id], DifferingFields(o, index[o.id]))) else None
  }

  ghost function DiffersIn(source: Order, target: Order): string -> Option<string> {
    (f: string) =>
      if || (f == "status" && source.status != target.status)
         || (f == "amount_cents" && source.amount != target.amount)
         || (f == "currency" && source.currency != target.currency)
         || (f == "version" && source.version != target.version)
      then Some(f) else None
  }

  /** The compared fields are four, and those that differ are named, in this order. */
  lemma FieldsListed(source: Order, target: Order)
    ensures Lists(DifferingFields(source, target), ["status", "amount_cents", "currency", "version"],
                  DiffersIn(source, target))
  {
    var entry := DiffersIn(source, target);
    var first, second := FirstFields(source, target), ["status", "amount_cents"];
    FirstFieldsListed(source, target);
    OneMoreListed(first, second, entry, "currency");
    OneMoreListed(first + AsList(entry("currency")), second + ["currency"], entry, "version");
    assert (second + ["currency"]) + ["version"] == ["status", "amount_cents", "currency", "version"];
    assert DifferingFields(source, target) == (first + AsList(entry("currency"))) + AsList(entry("version"));
  }

  ghost function FirstFields(source: Order, target: Order): seq<string> {
    (if source.status != target.status then ["status"] else [])
    + (if source.amount != target.amount then ["amount_cents"] else [])
  }

  lemma FirstFieldsListed(source: Order, target: Order)
    ensures Lists(FirstFields(source, target), ["status", "amount_cents"], DiffersIn(source, target))
  {
    var entry, status := DiffersIn(source, target), if source.status != target.status then ["status"] else [];
    StatusListed(source, target);
    OneMoreListed(status, ["status"], entry, "amount_cents");
    assert ["status"] + ["amount_cents"] == ["status", "amount_cents"];
    assert FirstFields(source, target) == status + AsList(entry("amount_cents"));
  }

  lemma StatusListed(source: Order, target: Order)
    ensures Lists(if source.status != target.status then ["status"] else [], ["status"], DiffersIn(source, target))
  {
    var entry := DiffersIn(source, target);
    var none: seq<string> := [];
    NothingListed<string, string>(entry);
    OneMoreListed(none, none, entry, "status");
    assert none + ["status"] == ["status"];
    assert none + AsList(entry("status")) == if source.status != target.status then ["status"] else [];
  }

  /** One entry for each missing order and for each stale one, in the order of the source. */
  lemma {:induction false} OrdersListed(sources: seq<Order>, index: map<string, Order>)
    ensures Lists(MissingOf(sources, index), sources, MissingEntry(index))
    ensures Lists(StaleOf(sources, index), sources, StaleEntry(index))
  {
    if sources == [] {
      NothingListed(MissingEntry(index));
      NothingListed(StaleEntry(index));
    } else {
      var front, last := sources[..|sources| - 1], sources[|sources| - 1];
      OrdersListed(front, index);
      OneMoreOrderListed(front, last, index);
      assert sources == front + [last];
    }
  }

  lemma OneMoreOrderListed(front: seq<Order>, last: Order, index: map<string, Order>)
    requires Lists(MissingOf(front, index), front, MissingEntry(index))
    requires Lists(StaleOf(front, index), front, StaleEntry(index))
    ensures Lists(MissingOf(front + [last], index), front + [last], MissingEntry(index))
    ensures Lists(StaleOf(front + [last], index), front + [last], StaleEntry(index))
  {
    OneMoreListed(MissingOf(front, index), front, MissingEntry(index), last);
    OneMoreListed(StaleOf(front, index), front, StaleEntry(index), last);
    assert (front + [last])[..|front|] == front;
  }

  lemma {:induction false} MissingMembers(sources: seq<Order>, index: map<string, Order>)
    ensures forall o :: o in MissingOf(sources, index) <==> o in sources && o.id !in index
  {
    if sources != [] {
      MissingMembers(sources[..|sources| - 1], index);
      assert sources == sources[..|sources| - 1] + [sources[|sources| - 1]];
    }
  }

  lemma {:induction false} StaleMembers(sources: seq<Order>, index: map<string, Order>)
    ensures forall s :: s in StaleOf(sources, index) <==>
              && s.source in sources && s.source.id in index && s.target == index[s.source.id]
              && !SameFields(s.source, s.target) && s.fields == DifferingFields(s.source, s.target)
  {
    if sources != [] {
      StaleMembers(sources[..|sources| - 1], index);
      assert sources == sources[..|sources| - 1] + [sources[|sources| - 1]];
    }
  }

  /** Nothing is missing and nothing stale exactly when every source order has a document with the same fields. */
  lemma NoDriftMeansSame(sources: seq<Order>, index: map<string, Order>)
    ensures MissingOf(sources, index) == [] && StaleOf(sources, index) == []
            <==> forall o :: o in sources ==> o.id in index && SameFields(o, index[o.id])
  {
    MissingMembers(sources, index);
    StaleMembers(sources, index);
    forall o | o in sources && MissingOf(sources, index) == [] && StaleOf(sources, index) == []
      ensures o.id in index && SameFields(o, index[o.id])
    {
      assert o !in MissingOf(sources, index);
      if o.id in index {
        assert Stale(o, index[o.id], DifferingFields(o, index[o.id])) !in StaleOf(sources, index);
      }
    }
    if MissingOf(sources, index) != [] { assert MissingOf(sources, index)[0] in MissingOf(sources, index); }
    if StaleOf(sources, index) != [] { assert StaleOf(sources, index)[0] in StaleOf(sources, index); }
  }

  function OrZero(i: Option<int>): int {
    if i.Some? then i.value else 0
  }

  // ----- orders by id -----

  /** Documents by id; the last of several with one id counts. */
  function ById(rows: seq<Order>): map<string, Order> {
    if rows == [] then map[] else ById(rows[..|rows| - 1])[rows[|rows| - 1].id := rows[|rows| - 1]]
  }

  ghost predicate DistinctIds(rows: seq<Order>) {
    forall i, j :: 0 <= i < j < |rows| ==> rows[i].id != rows[j].id
  }

  lemma {:induction false} DocumentsOf(rows: seq<Order>)
    ensures forall id :: id in ById(rows) ==> ById(rows)[id] in rows && ById(rows)[id].id == id
    ensures forall o :: o in rows ==> o.id in ById(rows)
    ensures DistinctIds(rows) ==> forall o :: o in rows ==> ById(rows)[o.id] == o
  {
    if rows != [] {
      var front, last := rows[..|rows| - 1], rows[|rows| - 1];
      DocumentsOf(front);
      assert rows == front + [last];
    }
  }

  lemma SameIdSameRow(rows: seq<Order>, o: Order, p: Order)
    requires DistinctIds(rows) && o in rows && p in rows && o.id == p.id
    ensures o == p
  {
    var i :| 0 <= i < |rows| && rows[i] == o;
    var j :| 0 <= j < |rows| && rows[j] == p;
    assert !(i < j) && !(j < i);
  }

  // ----- aggregates -----

  /** `summarize_paid_orders`, without the watermark. */
  datatype Summary = Summary(count: int, amount: int)

  function Sum(s: Summary, t: Summary): Summary { Summary(s.count + t.count, s.amount + t.amount) }

  function Summarize(orders: seq<Order>): Summary {
    if orders == [] then Summary(0, 0)
    else Sum(Summarize(orders[..|orders| - 1]), Summary(1, OrZero(orders[|orders| - 1].amount)))
  }

  /** The fields on which `compare_paid_order_aggregates` reports a mismatch. */
  function AggregateMismatches(source: Summary, target: Summary): seq<string> {
    (if source.count != target.count then ["count"] else [])
    + (if source.amount != target.amount then ["total_amount_cents"] else [])
  }

  /** The aggregates are compared in both their fields. */
  lemma AggregateMismatchesAre(source: Summary, target: Summary)
    ensures "count" in AggregateMismatches(source, target) <==> source.count != target.count
    ensures "total_amount_cents" in AggregateMismatches(source, target) <==> source.amount != target.amount
    ensures AggregateMismatches(source, target) == [] <==> source == target
  {
  }
}
