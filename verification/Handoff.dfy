/**
 What a checker Job hands to the repair Job: the report's items cut down to what a repair needs
 (`k8s_report.repair_input`), and the order ids the repair takes from them (`repair.repair_order_ids`).
 */
module Handoff {
  import opened Common
  import opened Listing
  import opened Ordering

  /**
   An element of a report's list: a dictionary of texts and nulls, or something else. A query check
   reports a row without a key under the order id null.
   */
  datatype Item = Dict(fields: map<string, Option<string>>) | NotADict

  /** The lists of a report or payload that name orders. */
  datatype Payload = Payload(missing: seq<Item>, stale: seq<Item>, violations: seq<Item>) {
    function Items(): seq<Item> { missing + stale + violations }
  }

  const KEPT := {"order_id", "reason", "mismatches"}

  function Compact(item: Item): Item
    requires item.Dict?
  {
    Dict(map k | k in item.fields && k in KEPT :: item.fields[k])
  }

  function Compacted(items: seq<Item>): seq<Item> {
    if items == [] then []
    else
      var last := items[|items| - 1];
      Compacted(items[..|items| - 1]) + (if last.Dict? then [Compact(last)] else [])
  }

  /** A dictionary with its order id, reason and mismatches, so far as it has them, and nothing else. */
  ghost function CompactEntry(): Item -> Option<Item> {
    (item: Item) =>
      if item.Dict?
      then Some(Dict(map k | k in item.fields.Keys * {"order_id", "reason", "mismatches"} :: item.fields[k]))
      else None
  }

  method CandidateItems(items: seq<Item>) returns (compact: seq<Item>)
    ensures compact == Compacted(items) && Lists(compact, items, CompactEntry())
  {
    compact := [];
    for i := 0 to |items|
      invariant compact == Compacted(items[..i])
    {
      assert items[..i + 1][..i] == items[..i];
      if items[i].NotADict? {
        continue;
      }
      compact := compact + [Compact(items[i])];
    }
    assert items[..|items|] == items;
    CompactedListed(items);
  }

  lemma {:induction false} CompactedListed(items: seq<Item>)
    ensures Lists(Compacted(items), items, CompactEntry())
  {
    if items == [] {
      NothingListed(CompactEntry());
    } else {
      var front, last := items[..|items| - 1], items[|items| - 1];
      CompactedListed(front);
      OneMoreCompacted(front, last);
      assert items == front + [last];
    }
  }

  lemma OneMoreCompacted(front: seq<Item>, last: Item)
    requires Lists(Compacted(front), front, CompactEntry())
    ensures Lists(Compacted(front + [last]), front + [last], CompactEntry())
  {
    OneMoreListed(Compacted(front), front, CompactEntry(), last);
    assert (front + [last])[..|front|] == front;
    assert last.Dict? ==> Compact(last).fields == CompactEntry()(last).value.fields;
  }

  function RepairInput(report: Payload): Payload {
    Payload(Compacted(report.missing), Compacted(report.stale), Compacted(report.violations))
  }

  predicate Names(item: Item) { item.Dict? && "order_id" in item.fields }

  function OrderIds(items: seq<Item>): set<Option<string>> {
    set i | 0 <= i < |items| && Names(items[i]) :: items[i].fields["order_id"]
  }

  function Texts(ids: set<Option<string>>): set<string> {
    set id | id in ids && id.Some? :: id.value
  }

  /**
   The sorted ids. An item without an order id, or that is no dictionary, raises, and so does sorting
   a null among texts.
   */
  method RepairOrderIds(payload: Payload) returns (r: Option<seq<Option<string>>>)
    ensures var items := payload.missing + payload.stale + payload.violations;
            r.Some? <==>
              && (forall x :: x in items ==> x.Dict? && "order_id" in x.fields)
              && (None in OrderIds(items) ==> OrderIds(items) == {None})
    ensures r.Some? && None in OrderIds(payload.Items()) ==> r.value == [None]
    ensures r.Some? && None !in OrderIds(payload.Items()) ==>
              exists texts :: SortedListing(Texts(OrderIds(payload.Items())), texts) && r.value == AllSome(texts)
  {
    var items := payload.Items();
    for i := 0 to |items|
      invariant forall j :: 0 <= j < i ==> Names(items[j])
    {
      if !Names(items[i]) {
        assert items[i] in items;
        return None;
      }
    }
    var ids := OrderIds(items);
    if None in ids {
      return if ids == {None} then Some([None]) else None;
    }
    var texts := SortedStrings(Texts(ids));
    r := Some(AllSome(texts));
  }

  function AllSome(texts: seq<string>): seq<Option<string>> {
    seq(|texts|, i requires 0 <= i < |texts| => Some(texts[i]))
  }

  lemma {:induction false} CompactedItems(items: seq<Item>)
    ensures forall c :: c in Compacted(items) <==> exists x :: x in items && x.Dict? && c == Compact(x)
  {
    if items != [] {
      var front, last := items[..|items| - 1], items[|items| - 1];
      CompactedItems(front);
      assert items == front + [last];
    }
  }

  lemma IdsByMember(items: seq<Item>, id: Option<string>)
    ensures id in OrderIds(items) <==> exists x :: x in items && Names(x) && x.fields["order_id"] == id
  {
    if x :| x in items && Names(x) && x.fields["order_id"] == id {
      var i :| 0 <= i < |items| && items[i] == x;
    }
  }

  /**
   The handoff names the same orders as the report, so one can be sorted exactly when the other can. All
   its items name orders whenever all those of the report do, and beyond that exactly when the report's
   other items are no dictionaries at all, which it drops.
   */
  lemma HandoffKeepsOrderIds(report: Payload)
    ensures OrderIds(RepairInput(report).Items()) == OrderIds(report.Items())
    ensures (forall c :: c in RepairInput(report).Items() ==> Names(c))
            <==> forall x :: x in report.Items() && x.Dict? ==> Names(x)
  {
    var full, cut := report.Items(), RepairInput(report).Items();
    CompactedItems(report.missing);
    CompactedItems(report.stale);
    CompactedItems(report.violations);
    forall c ensures c in cut <==> exists x :: x in full && x.Dict? && c == Compact(x) {}
    forall id ensures id in OrderIds(cut) <==> id in OrderIds(full) {
      IdsByMember(full, id);
      IdsByMember(cut, id);
      if x :| x in full && Names(x) && x.fields["order_id"] == id {
        assert Compact(x) in cut && Names(Compact(x));
      }
    }
    forall x | x in full && x.Dict? ensures Compact(x) in cut && (Names(Compact(x)) <==> Names(x)) {}
  }
}
