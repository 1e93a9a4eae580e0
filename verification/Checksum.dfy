/**
 The prefix-bucket checksum check: rows are grouped by a prefix of their id, the groups of source and
 target are compared by a fingerprint of three sums, and only the rows of differing groups are compared
 one by one (`merkle.py`, `check_paid_orders_checksum`, `compare_paid_order_checksum_buckets`).
 */
module Checksum {
  import opened Common
  import opened Decimal
  import opened DriftReports
  import opened Listing
  import opened Ordering
  import opened Orders
  import Watermark

  /** The three sums a fingerprint covers. */
  datatype Totals = Totals(count: int, amount: int, version: int) {
    function Plus(t: Totals): Totals { Totals(count + t.count, amount + t.amount, version + t.version) }
  }

  const ZERO := Totals(0, 0, 0)

  datatype Bucket = Bucket(key: string, totals: Totals, watermark: Option<string>)

  datatype Mismatch = Mismatch(bucket: string, source: Totals, target: Totals)

  /** `id[:length]` */
  function Prefix(id: string, length: nat): string {
    if |id| <= length then id else id[..length]
  }

  function ByPrefix(length: nat): string -> string {
    (id: string) => Prefix(id, length)
  }

  function TotalsOfRow(o: Order): Totals {
    Totals(1, OrZero(o.amount), OrZero(o.version))
  }

  /** The sums over the rows that `key` puts in the group b. */
  function GroupTotals(rows: seq<Order>, key: string -> string, b: string): Totals {
    if rows == [] then ZERO
    else
      var rest := GroupTotals(rows[..|rows| - 1], key, b);
      var last := rows[|rows| - 1];
      if key(last.id) == b then rest.Plus(TotalsOfRow(last)) else rest
  }

  /** The update times of the rows of a group, in row order. */
  function GroupTimes(rows: seq<Order>, key: string -> string, b: string): seq<Option<string>> {
    if rows == [] then []
    else
      var rest := GroupTimes(rows[..|rows| - 1], key, b);
      if key(rows[|rows| - 1].id) == b then rest + [rows[|rows| - 1].updatedAt] else rest
  }

  ghost predicate HasGroup(rows: seq<Order>, key: string -> string, b: string) {
    exists o :: o in rows && key(o.id) == b
  }

  /** The group-by, spelled out: one bucket per group that has a row, in the order of the keys. */
  ghost predicate IsGroupBy(buckets: seq<Bucket>, rows: seq<Order>, key: string -> string) {
    && (forall i, j :: 0 <= i < j < |buckets| ==> Less(buckets[i].key, buckets[j].key))
    && (forall b :: HasGroup(rows, key, b) <==> exists i :: 0 <= i < |buckets| && buckets[i].key == b)
    && (forall i :: 0 <= i < |buckets| ==>
          buckets[i].totals == GroupTotals(rows, key, buckets[i].key)
          && buckets[i].watermark == Watermark.Latest(GroupTimes(rows, key, buckets[i].key)))
  }

  /** `later` is the watermark after one more row. */
  function NextWatermark(w: Option<string>, t: Option<string>): Option<string> {
    if t.None? || t.value == "" then w
    else if w.None? || Less(w.value, t.value) then t
    else w
  }

  function GroupBucket(rows: seq<Order>, key: string -> string, b: string): Bucket {
    Bucket(b, GroupTotals(rows, key, b), Watermark.Latest(GroupTimes(rows, key, b)))
  }

  /** The dictionary the loop fills holds one bucket per group of the rows read so far. */
  ghost predicate IsTally(buckets: map<string, Bucket>, rows: seq<Order>, key: string -> string) {
    && (forall b :: b in buckets <==> HasGroup(rows, key, b))
    && (forall b :: b in buckets ==> buckets[b] == GroupBucket(rows, key, b))
  }

  method SummarizeRowsByPrefix(rows: seq<Order>, length: nat) returns (r: seq<Bucket>)
    ensures IsGroupBy(r, rows, ByPrefix(length))
  {
    ghost var key := ByPrefix(length);
    var buckets: map<string, Bucket> := map[];
    for i := 0 to |rows|
      invariant IsTally(buckets, rows[..i], key)
    {
      var row := rows[i];
      var b := Prefix(row.id, length);
      assert rows[..i + 1] == rows[..i] + [row];
      TallyOneMore(buckets, rows[..i], row, key);
      var s := if b in buckets then buckets[b] else Bucket(b, ZERO, None);
      buckets := buckets[b := Bucket(b, s.totals.Plus(TotalsOfRow(row)), NextWatermark(s.watermark, row.updatedAt))];
    }
    assert rows[..|rows|] == rows;
    var keys := SortedStrings(buckets.Keys);
    r := seq(|keys|, i requires 0 <= i < |keys| => (assert keys[i] in keys; buckets[keys[i]]));
    TallyListed(buckets, rows, key, keys, r);
  }

  lemma TallyOneMore(buckets: map<string, Bucket>, rows: seq<Order>, row: Order, key: string -> string)
    requires IsTally(buckets, rows, key)
    ensures var b := key(row.id);
            var s := if b in buckets then buckets[b] else Bucket(b, ZERO, None);
            IsTally(buckets[b := Bucket(b, s.totals.Plus(TotalsOfRow(row)), NextWatermark(s.watermark, row.updatedAt))],
                    rows + [row], key)
  {
    var b := key(row.id);
    var s := if b in buckets then buckets[b] else Bucket(b, ZERO, None);
    var next := buckets[b := Bucket(b, s.totals.Plus(TotalsOfRow(row)), NextWatermark(s.watermark, row.updatedAt))];
    forall c ensures c in next <==> HasGroup(rows + [row], key, c) {
      GroupsOneMore(rows, row, key, c);
    }
    forall c | c in next ensures next[c] == GroupBucket(rows + [row], key, c) {
      BucketOneMore(rows, row, key, c);
    }
  }

  lemma GroupsOneMore(rows: seq<Order>, row: Order, key: string -> string, c: string)
    ensures HasGroup(rows + [row], key, c) <==> HasGroup(rows, key, c) || c == key(row.id)
  {
    if HasGroup(rows, key, c) {
      var o :| o in rows && key(o.id) == c;
      assert o in rows + [row];
    }
    assert row in rows + [row];
  }

  lemma BucketOneMore(rows: seq<Order>, row: Order, key: string -> string, c: string)
    ensures var s := if HasGroup(rows, key, c) then GroupBucket(rows, key, c) else Bucket(c, ZERO, None);
            GroupBucket(rows + [row], key, c)
            == if c == key(row.id)
               then Bucket(c, s.totals.Plus(TotalsOfRow(row)), NextWatermark(s.watermark, row.updatedAt))
               else GroupBucket(rows, key, c)
  {
    OneMoreRow(rows, row, key, c);
    OneMoreTime(rows, row, key, c);
    if !HasGroup(rows, key, c) {
      EmptyGroup(rows, key, c);
    }
  }

  lemma OneMoreTime(rows: seq<Order>, row: Order, key: string -> string, b: string)
    ensures Watermark.Latest(GroupTimes(rows + [row], key, b))
            == if key(row.id) == b then NextWatermark(Watermark.Latest(GroupTimes(rows, key, b)), row.updatedAt)
               else Watermark.Latest(GroupTimes(rows, key, b))
  {
    assert (rows + [row])[..|rows|] == rows;
    var times := GroupTimes(rows, key, b);
    assert (times + [row.updatedAt])[..|times|] == times;
  }

  lemma TallyListed(
    buckets: map<string, Bucket>, rows: seq<Order>, key: string -> string, keys: seq<string>, r: seq<Bucket>)
    requires IsTally(buckets, rows, key) && SortedListing(buckets.Keys, keys)
    requires |r| == |keys| && forall i :: 0 <= i < |r| ==> keys[i] in buckets && r[i] == buckets[keys[i]]
    ensures IsGroupBy(r, rows, key)
  {
    forall b ensures HasGroup(rows, key, b) <==> exists i :: 0 <= i < |r| && r[i].key == b {
      if b in buckets {
        assert b in keys;
        var i :| 0 <= i < |keys| && keys[i] == b;
        assert r[i].key == b;
      }
    }
  }

  // ----- fingerprints -----

  /** The text the fingerprint hashes: the three sums, separated by bars. */
  function Encoding(t: Totals): string {
    IntStr(t.count) + ['|'] + (IntStr(t.amount) + ['|'] + IntStr(t.version))
  }

  function Fingerprint(sha: string -> string, t: Totals): string {
    sha(Encoding(t))
  }

  ghost predicate Injective(sha: string -> string) {
    forall a, b :: sha(a) == sha(b) ==> a == b
  }

  lemma IntStrHasNoBar(i: int)
    ensures Without(IntStr(i), '|')
  {
    StrValue(if i < 0 then -i else i);
  }

  /** Different sums have different encodings. */
  lemma EncodingInjective(s: Totals, t: Totals)
    requires Encoding(s) == Encoding(t)
    ensures s == t
  {
    IntStrHasNoBar(s.count);
    IntStrHasNoBar(t.count);
    IntStrHasNoBar(s.amount);
    IntStrHasNoBar(t.amount);
    SplitAtFirst(IntStr(s.count), IntStr(s.amount) + ['|'] + IntStr(s.version),
                 IntStr(t.count), IntStr(t.amount) + ['|'] + IntStr(t.version), '|');
    SplitAtFirst(IntStr(s.amount), IntStr(s.version), IntStr(t.amount), IntStr(t.version), '|');
    IntStrInjective(s.count, t.count);
    IntStrInjective(s.amount, t.amount);
    IntStrInjective(s.version, t.version);
  }

  // ----- comparing buckets -----

  /** The bucket's sums; a bucket that is not there counts as empty. */
  function TotalsIn(buckets: seq<Bucket>, b: string): Totals {
    if buckets == [] then ZERO
    else if buckets[|buckets| - 1].key == b then buckets[|buckets| - 1].totals
    else TotalsIn(buckets[..|buckets| - 1], b)
  }

  function KeysOf(buckets: seq<Bucket>): set<string> {
    set i | 0 <= i < |buckets| :: buckets[i].key
  }

  /** The loop of `compare_bucket_summaries`: mismatches in key order, exactly the buckets whose fingerprints differ. */
  method CompareBuckets(source: seq<Bucket>, target: seq<Bucket>, sha: string -> string) returns (r: seq<Mismatch>)
    ensures Ascending(r)
    ensures forall m :: m in r <==>
              && m.bucket in KeysOf(source) + KeysOf(target)
              && m.source == TotalsIn(source, m.bucket) && m.target == TotalsIn(target, m.bucket)
              && Fingerprint(sha, m.source) != Fingerprint(sha, m.target)
  {
    var keys := SortedStrings(KeysOf(source) + KeysOf(target));
    r := [];
    for i := 0 to |keys|
      invariant r == DifferingAt(keys[..i], source, target, sha)
    {
      assert keys[..i + 1][..i] == keys[..i];
      var s, t := TotalsIn(source, keys[i]), TotalsIn(target, keys[i]);
      if Fingerprint(sha, s) != Fingerprint(sha, t) {
        r := r + [Mismatch(keys[i], s, t)];
      }
    }
    assert keys[..|keys|] == keys;
    DifferingAtAre(keys, source, target, sha);
    DifferingAtSorted(keys, source, target, sha);
  }

  function DifferingAt(keys: seq<string>, source: seq<Bucket>, target: seq<Bucket>,
      sha: string -> string): seq<Mismatch> {
    if keys == [] then []
    else
      var before, b := DifferingAt(keys[..|keys| - 1], source, target, sha), keys[|keys| - 1];
      var s, t := TotalsIn(source, b), TotalsIn(target, b);
      if Fingerprint(sha, s) != Fingerprint(sha, t) then before + [Mismatch(b, s, t)] else before
  }

  lemma {:induction false} DifferingAtAre(keys: seq<string>, source: seq<Bucket>, target: seq<Bucket>,
      sha: string -> string)
    ensures forall m :: m in DifferingAt(keys, source, target, sha) <==>
              && m.bucket in keys && m.source == TotalsIn(source, m.bucket) && m.target == TotalsIn(target, m.bucket)
              && Fingerprint(sha, m.source) != Fingerprint(sha, m.target)
  {
    if keys != [] {
      var front, last := keys[..|keys| - 1], keys[|keys| - 1];
      DifferingAtAre(front, source, target, sha);
      assert keys == front + [last];
    }
  }

  ghost predicate Ascending(mismatches: seq<Mismatch>) {
    forall i, j :: 0 <= i < j < |mismatches| ==> Less(mismatches[i].bucket, mismatches[j].bucket)
  }

  lemma AscendingAppend(mismatches: seq<Mismatch>, m: Mismatch)
    requires Ascending(mismatches) && forall x :: x in mismatches ==> Less(x.bucket, m.bucket)
    ensures Ascending(mismatches + [m])
  {
    assert forall i :: 0 <= i < |mismatches| ==> mismatches[i] in mismatches;
  }

  lemma {:induction false} DifferingAtSorted(keys: seq<string>, source: seq<Bucket>, target: seq<Bucket>,
      sha: string -> string)
    requires Increasing(keys)
    ensures Ascending(DifferingAt(keys, source, target, sha))
  {
    if keys != [] {
      var front, last := keys[..|keys| - 1], keys[|keys| - 1];
      var before := DifferingAt(front, source, target, sha);
      DifferingAtSorted(front, source, target, sha);
      forall x | x in before ensures Less(x.bucket, last) {
        DifferingAtAre(front, source, target, sha);
        var k :| 0 <= k < |front| && front[k] == x.bucket;
        assert keys[k] == front[k];
      }
      AscendingAppend(before, Mismatch(last, TotalsIn(source, last), TotalsIn(target, last)));
    }
  }

  // ----- the check -----

  datatype Report = Report(checkedRecords: int, mismatches: seq<Mismatch>, missing: seq<Order>, stale: seq<Stale>) {
    function Status(): DriftReports.Status {
      StatusOf(CHECK_COMPLETE, |mismatches| + |missing| + |stale|)
    }
  }

  /** The rows whose bucket is among the given ones; the empty prefix is never asked for. */
  function InBuckets(rows: seq<Order>, length: nat, bs: set<string>): seq<Order> {
    if rows == [] then []
    else
      var last := rows[|rows| - 1];
      InBuckets(rows[..|rows| - 1], length, bs)
      + (if Prefix(last.id, length) in bs && Prefix(last.id, length) != "" then [last] else [])
  }

  function StaleInBuckets(stale: seq<Stale>, length: nat, bs: set<string>): seq<Stale> {
    if stale == [] then []
    else
      var last := stale[|stale| - 1];
      StaleInBuckets(stale[..|stale| - 1], length, bs)
      + (if Prefix(last.source.id, length) in bs && Prefix(last.source.id, length) != "" then [last] else [])
  }

  function BucketsOf(mismatches: seq<Mismatch>): set<string> {
    set m | m in mismatches :: m.bucket
  }

  /** The length both stores use: at least 1 and, whatever was asked for, at most 12. */
  function BoundedPrefixLength(length: int): Option<nat> {
    if length < 1 then None else Some(if length > 12 then 12 else length)
  }

  /** All buckets together. */
  function SumTotals(buckets: seq<Bucket>): Totals {
    if buckets == [] then ZERO else buckets[0].totals.Plus(SumTotals(buckets[1..]))
  }

  /**
   The filter of every query the check issues, on either store: paid, and last updated before a cutoff,
   given by the update times it lets through.
   */
  predicate IsEligible(o: Order, inTime: string -> bool) {
    o.status == Some("paid") && o.updatedAt.Some? && inTime(o.updatedAt.value)
  }

  function Eligible(rows: seq<Order>, inTime: string -> bool): seq<Order> {
    if rows == [] then []
    else
      var rest, last := Eligible(rows[..|rows| - 1], inTime), rows[|rows| - 1];
      if IsEligible(last, inTime) then rest + [last] else rest
  }

  /**
   The orders of one store at the query for the bucket sums and at the later query for the rows of the
   mismatching buckets. Postgres takes its cutoff anew at each query.
   */
  datatype Reads = Reads(summed: seq<Order>, fetched: seq<Order>)

  datatype Cutoffs = Cutoffs(summed: string -> bool, fetched: string -> bool)

  /** What the queries of the check see of a store. */
  function Seen(store: Reads, cutoffs: Cutoffs): Reads {
    Reads(Eligible(store.summed, cutoffs.summed), Eligible(store.fetched, cutoffs.fetched))
  }

  /** The check fails with an error for a prefix length below 1. */
  method CheckPaidOrdersChecksum(
    sourceStore: Reads, sourceCutoffs: Cutoffs, targetStore: Reads, targetCutoff: string -> bool,
    length: int, sha: string -> string)
    returns (r: Option<Report>)
    requires Injective(sha)
    ensures r.None? <==> length < 1
    ensures r.Some? ==>
              IsReport(
                r.value,
                Reads(Eligible(sourceStore.summed, sourceCutoffs.summed),
                      Eligible(sourceStore.fetched, sourceCutoffs.fetched)),
                Reads(Eligible(targetStore.summed, targetCutoff), Eligible(targetStore.fetched, targetCutoff)),
                if length < 12 then length else 12)
  {
    var bounded := BoundedPrefixLength(length);
    if bounded.None? {
      return None;
    }
    var source := Reads(Eligible(sourceStore.summed, sourceCutoffs.summed),
                        Eligible(sourceStore.fetched, sourceCutoffs.fetched));
    var target := Reads(Eligible(targetStore.summed, targetCutoff), Eligible(targetStore.fetched, targetCutoff));
    var report := CompareChecksums(source, target, bounded.value, sha);
    r := Some(report);
  }

  /** The check on what the queries return. */
  method CompareChecksums(source: Reads, target: Reads, n: nat, sha: string -> string) returns (r: Report)
    requires Injective(sha)
    ensures IsReport(r, source, target, n)
  {
    var sourceBuckets := SummarizeRowsByPrefix(source.summed, n);
    var targetBuckets := SummarizeRowsByPrefix(target.summed, n);
    var mismatches := CompareBuckets(sourceBuckets, targetBuckets, sha);
    MismatchesAreDifferences(source.summed, target.summed, ByPrefix(n), sourceBuckets, targetBuckets, sha, mismatches);
    var bs := BucketsOf(mismatches);
    var sourceRows, targetRows := InBuckets(source.fetched, n, bs), InBuckets(target.fetched, n, bs);
    var missing, stale := CompareOrders(sourceRows, ById(targetRows));
    BucketsPartitionTheRows(source.summed, ByPrefix(n), sourceBuckets);
    r := Report(SumTotals(sourceBuckets).count, mismatches, missing, stale);
  }

  /** What a checksum report at a prefix length says about the rows. */
  ghost predicate IsReport(r: Report, source: Reads, target: Reads, length: nat) {
    var bs := BucketsOf(r.mismatches);
    && r.checkedRecords == |source.summed|
    && Ascending(r.mismatches)
    && (forall m :: m in r.mismatches ==>
          && m.source == GroupTotals(source.summed, ByPrefix(length), m.bucket)
          && m.target == GroupTotals(target.summed, ByPrefix(length), m.bucket))
    && (forall b :: b in bs <==> Differs(source.summed, target.summed, ByPrefix(length), b))
    && r.missing == MissingOf(InBuckets(source.fetched, length, bs), ById(InBuckets(target.fetched, length, bs)))
    && r.stale == StaleOf(InBuckets(source.fetched, length, bs), ById(InBuckets(target.fetched, length, bs)))
  }

  // ----- the sums, over the orders' own fields -----

  function AmountOf(o: Order): int { if o.amount.Some? then o.amount.value else 0 }

  function VersionOf(o: Order): int { if o.version.Some? then o.version.value else 0 }

  /** The sum of a value over the rows of a group. */
  ghost function SumOver(rows: seq<Order>, inGroup: Order -> bool, value: Order -> int): int {
    if rows == [] then 0
    else (if inGroup(rows[0]) then value(rows[0]) else 0) + SumOver(rows[1..], inGroup, value)
  }

  ghost function InGroup(key: string -> string, b: string): Order -> bool {
    (o: Order) => key(o.id) == b
  }

  lemma {:induction false} SumOverAppend(rows: seq<Order>, o: Order, inGroup: Order -> bool, value: Order -> int)
    ensures SumOver(rows + [o], inGroup, value)
            == SumOver(rows, inGroup, value) + if inGroup(o) then value(o) else 0
  {
    if rows == [] {
      assert rows + [o] == [o] && [o][1..] == [];
    } else {
      SumOverAppend(rows[1..], o, inGroup, value);
      assert (rows + [o])[1..] == rows[1..] + [o];
    }
  }

  /** A group's sums are the number of its orders and the sums of their amounts and of their versions. */
  lemma {:induction false} GroupSums(rows: seq<Order>, key: string -> string, b: string)
    ensures GroupTotals(rows, key, b).count == SumOver(rows, InGroup(key, b), _ => 1)
    ensures GroupTotals(rows, key, b).amount == SumOver(rows, InGroup(key, b), AmountOf)
    ensures GroupTotals(rows, key, b).version == SumOver(rows, InGroup(key, b), VersionOf)
  {
    if rows != [] {
      var front, last := rows[..|rows| - 1], rows[|rows| - 1];
      GroupSums(front, key, b);
      SumOverAppend(front, last, InGroup(key, b), _ => 1);
      SumOverAppend(front, last, InGroup(key, b), AmountOf);
      SumOverAppend(front, last, InGroup(key, b), VersionOf);
      assert rows == front + [last];
    }
  }

  /** A bucket differs if and only if one of the three sums does. */
  lemma DiffersIff(source: seq<Order>, target: seq<Order>, key: string -> string, b: string)
    ensures Differs(source, target, key, b)
            <==> || SumOver(source, InGroup(key, b), _ => 1) != SumOver(target, InGroup(key, b), _ => 1)
                 || SumOver(source, InGroup(key, b), AmountOf) != SumOver(target, InGroup(key, b), AmountOf)
                 || SumOver(source, InGroup(key, b), VersionOf) != SumOver(target, InGroup(key, b), VersionOf)
  {
    GroupSums(source, key, b);
    GroupSums(target, key, b);
  }

  /** The group's sums differ between source and target. */
  ghost predicate Differs(source: seq<Order>, target: seq<Order>, key: string -> string, b: string) {
    GroupTotals(source, key, b) != GroupTotals(target, key, b)
  }

  lemma {:induction false} EmptyGroup(rows: seq<Order>, key: string -> string, b: string)
    requires !HasGroup(rows, key, b)
    ensures GroupTotals(rows, key, b) == ZERO && GroupTimes(rows, key, b) == []
  {
    if rows != [] {
      assert rows[|rows| - 1] in rows;
      assert forall o :: o in rows[..|rows| - 1] ==> o in rows;
      EmptyGroup(rows[..|rows| - 1], key, b);
    }
  }

  lemma {:induction false} TotalsInGroupBy(buckets: seq<Bucket>, b: string)
    requires forall i, j :: 0 <= i < j < |buckets| ==> Less(buckets[i].key, buckets[j].key)
    ensures forall i :: 0 <= i < |buckets| && buckets[i].key == b ==> TotalsIn(buckets, b) == buckets[i].totals
    ensures (forall i :: 0 <= i < |buckets| ==> buckets[i].key != b) ==> TotalsIn(buckets, b) == ZERO
  {
    if buckets != [] {
      TotalsInGroupBy(buckets[..|buckets| - 1], b);
      LessTrichotomy(b, b);
      assert forall i :: 0 <= i < |buckets| - 1 ==> buckets[i] == buckets[..|buckets| - 1][i];
    }
  }

  lemma GroupByTotals(buckets: seq<Bucket>, rows: seq<Order>, key: string -> string, b: string)
    requires IsGroupBy(buckets, rows, key)
    ensures TotalsIn(buckets, b) == GroupTotals(rows, key, b)
    ensures b in KeysOf(buckets) <==> HasGroup(rows, key, b)
  {
    TotalsInGroupBy(buckets, b);
    if !HasGroup(rows, key, b) {
      EmptyGroup(rows, key, b);
    }
  }

  lemma MismatchesAreDifferences(
    source: seq<Order>, target: seq<Order>, key: string -> string,
    sourceBuckets: seq<Bucket>, targetBuckets: seq<Bucket>, sha: string -> string, mismatches: seq<Mismatch>)
    requires Injective(sha) && IsGroupBy(sourceBuckets, source, key) && IsGroupBy(targetBuckets, target, key)
    requires forall m :: m in mismatches <==>
               && m.bucket in KeysOf(sourceBuckets) + KeysOf(targetBuckets)
               && m.source == TotalsIn(sourceBuckets, m.bucket) && m.target == TotalsIn(targetBuckets, m.bucket)
               && Fingerprint(sha, m.source) != Fingerprint(sha, m.target)
    ensures forall b :: b in BucketsOf(mismatches) <==> Differs(source, target, key, b)
    ensures forall m :: m in mismatches ==>
              m.source == GroupTotals(source, key, m.bucket) && m.target == GroupTotals(target, key, m.bucket)
  {
    forall m | m in mismatches
      ensures m.source == GroupTotals(source, key, m.bucket) && m.target == GroupTotals(target, key, m.bucket)
    {
      GroupByTotals(sourceBuckets, source, key, m.bucket);
      GroupByTotals(targetBuckets, target, key, m.bucket);
    }
    forall b ensures b in BucketsOf(mismatches) <==> Differs(source, target, key, b) {
      GroupByTotals(sourceBuckets, source, key, b);
      GroupByTotals(targetBuckets, target, key, b);
      var m := Mismatch(b, TotalsIn(sourceBuckets, b), TotalsIn(targetBuckets, b));
      if Fingerprint(sha, m.source) == Fingerprint(sha, m.target) {
        EncodingInjective(m.source, m.target);
      }
      if !HasGroup(source, key, b) && !HasGroup(target, key, b) {
        EmptyGroup(source, key, b);
        EmptyGroup(target, key, b);
      } else if Differs(source, target, key, b) {
        assert m in mismatches;
      }
    }
  }

  // ----- buckets partition the rows -----

  /** The key that puts every row in one group. */
  function Everything(): string -> string {
    (id: string) => ""
  }

  /** The rows outside the group c. */
  function OutsideGroup(rows: seq<Order>, key: string -> string, c: string): seq<Order> {
    if rows == [] then []
    else
      var rest, last := OutsideGroup(rows[..|rows| - 1], key, c), rows[|rows| - 1];
      if key(last.id) == c then rest else rest + [last]
  }

  lemma {:induction false} OutsideGroupRows(rows: seq<Order>, key: string -> string, c: string)
    ensures forall o :: o in OutsideGroup(rows, key, c) <==> o in rows && key(o.id) != c
    ensures |OutsideGroup(rows, key, c)| <= |rows|
    ensures HasGroup(rows, key, c) ==> |OutsideGroup(rows, key, c)| < |rows|
  {
    if rows != [] {
      var front, last := rows[..|rows| - 1], rows[|rows| - 1];
      OutsideGroupRows(front, key, c);
      assert rows == front + [last];
      if HasGroup(rows, key, c) && key(last.id) != c {
        var o :| o in rows && key(o.id) == c;
        assert o in front;
      }
    }
  }

  /** Taking a fine group out of the rows takes its sums out of the coarse group it lies in, and out of no other. */
  lemma {:induction false} TakeOutGroup(
    rows: seq<Order>, fine: string -> string, c: string, coarse: string -> string, b: string, inside: bool)
    requires forall o :: o in rows && fine(o.id) == c ==> (coarse(o.id) == b) == inside
    ensures GroupTotals(rows, coarse, b)
            == GroupTotals(OutsideGroup(rows, fine, c), coarse, b)
               .Plus(if inside then GroupTotals(rows, fine, c) else ZERO)
  {
    if rows != [] {
      var front, last := rows[..|rows| - 1], rows[|rows| - 1];
      assert rows == front + [last];
      TakeOutGroup(front, fine, c, coarse, b, inside);
      assert fine(last.id) == c ==> (coarse(last.id) == b) == inside;
      var rest := OutsideGroup(front, fine, c);
      OneMoreRow(front, last, coarse, b);
      OneMoreRow(front, last, fine, c);
      OneMoreRow(rest, last, coarse, b);
      assert OutsideGroup(rows, fine, c) == if fine(last.id) == c then rest else rest + [last];
      TakeOutOneMore(GroupTotals(front, coarse, b), GroupTotals(rest, coarse, b), GroupTotals(front, fine, c),
                     TotalsOfRow(last), inside, fine(last.id) == c, coarse(last.id) == b);
    }
  }

  lemma TakeOutOneMore(whole: Totals, rest: Totals, group: Totals, row: Totals, inside: bool, inFine: bool,
      inCoarse: bool)
    requires whole == rest.Plus(if inside then group else ZERO)
    requires inFine ==> inCoarse == inside
    ensures (if inCoarse then whole.Plus(row) else whole)
            == (if inCoarse && !inFine then rest.Plus(row) else rest)
               .Plus(if !inside then ZERO else if inFine then group.Plus(row) else group)
  {
  }

  lemma OneMoreRow(rows: seq<Order>, o: Order, key: string -> string, b: string)
    ensures GroupTotals(rows + [o], key, b)
            == if key(o.id) == b then GroupTotals(rows, key, b).Plus(TotalsOfRow(o)) else GroupTotals(rows, key, b)
  {
    assert (rows + [o])[..|rows|] == rows;
  }

  lemma OtherGroupsStay(rows: seq<Order>, key: string -> string, c: string, d: string)
    requires c != d
    ensures GroupTotals(OutsideGroup(rows, key, c), key, d) == GroupTotals(rows, key, d)
  {
    TakeOutGroup(rows, key, c, key, d, false);
    PlusZero(GroupTotals(OutsideGroup(rows, key, c), key, d));
  }

  lemma PlusZero(x: Totals)
    ensures x.Plus(ZERO) == x
  {
  }

  /**
   Fine groups tile the rows of a coarse group: distinct, with their sums, each row of the coarse group
   in one of them, and none of them with rows from outside.
   */
  ghost predicate Tile(
    buckets: seq<Bucket>, rows: seq<Order>, fine: string -> string, coarse: string -> string, b: string)
  {
    && DistinctKeys(buckets)
    && (forall i :: 0 <= i < |buckets| ==> buckets[i].totals == GroupTotals(rows, fine, buckets[i].key))
    && (forall o :: o in rows ==>
          (coarse(o.id) == b <==> exists i :: 0 <= i < |buckets| && buckets[i].key == fine(o.id)))
  }

  /** The partition theorem: the sums of the tiles add up to those of the coarse group. */
  lemma {:induction false} TilesAddUp(
    buckets: seq<Bucket>, rows: seq<Order>, fine: string -> string, coarse: string -> string, b: string)
    requires Tile(buckets, rows, fine, coarse, b)
    ensures SumTotals(buckets) == GroupTotals(rows, coarse, b)
    decreases |buckets|
  {
    if buckets == [] {
      assert forall o :: o in rows ==> coarse(o.id) != b;
      EmptyGroup(rows, coarse, b);
    } else {
      var c, tail := buckets[0].key, buckets[1..];
      var rest := OutsideGroup(rows, fine, c);
      OneTileOut(buckets, rows, fine, coarse, b);
      TilesAddUp(tail, rest, fine, coarse, b);
      forall o | o in rows && fine(o.id) == c ensures coarse(o.id) == b {
        assert buckets[0].key == fine(o.id);
      }
      TakeOutGroup(rows, fine, c, coarse, b, true);
      PlusCommutes(buckets[0].totals, SumTotals(tail));
    }
  }

  lemma OneTileOut(
    buckets: seq<Bucket>, rows: seq<Order>, fine: string -> string, coarse: string -> string, b: string)
    requires buckets != [] && Tile(buckets, rows, fine, coarse, b)
    ensures Tile(buckets[1..], OutsideGroup(rows, fine, buckets[0].key), fine, coarse, b)
  {
    var c, tail := buckets[0].key, buckets[1..];
    var rest := OutsideGroup(rows, fine, c);
    OutsideGroupRows(rows, fine, c);
    forall i | 0 <= i < |tail| ensures tail[i].totals == GroupTotals(rest, fine, tail[i].key) {
      assert tail[i] == buckets[i + 1];
      OtherGroupsStay(rows, fine, c, tail[i].key);
    }
    forall o | o in rest
      ensures coarse(o.id) == b <==> exists i :: 0 <= i < |tail| && tail[i].key == fine(o.id)
    {
      if coarse(o.id) == b {
        var i :| 0 <= i < |buckets| && buckets[i].key == fine(o.id);
        assert tail[i - 1].key == fine(o.id);
      }
      if i :| 0 <= i < |tail| && tail[i].key == fine(o.id) {
        assert buckets[i + 1].key == fine(o.id);
      }
    }
  }

  lemma PlusCommutes(x: Totals, y: Totals)
    ensures x.Plus(y) == y.Plus(x)
  {
  }

  lemma {:induction false} AllRows(rows: seq<Order>)
    ensures var all := GroupTotals(rows, Everything(), "");
            all.count == |rows| && Summarize(rows) == Summary(all.count, all.amount)
  {
    if rows != [] {
      AllRows(rows[..|rows| - 1]);
    }
  }

  /** Counts and amounts of the buckets add up to those of the aggregate check, at every prefix length. */
  lemma BucketsPartitionTheRows(rows: seq<Order>, key: string -> string, buckets: seq<Bucket>)
    requires IsGroupBy(buckets, rows, key)
    ensures SumTotals(buckets).count == |rows|
    ensures Summarize(rows) == Summary(SumTotals(buckets).count, SumTotals(buckets).amount)
  {
    BucketsAreTiles(buckets, rows, key, Everything(), "");
    TilesAddUp(buckets, rows, key, Everything(), "");
    AllRows(rows);
  }

  lemma BucketsAreTiles(
    buckets: seq<Bucket>, rows: seq<Order>, fine: string -> string, coarse: string -> string, b: string)
    requires IsGroupBy(buckets, rows, fine) && forall o :: o in rows ==> coarse(o.id) == b
    ensures Tile(buckets, rows, fine, coarse, b)
  {
    forall i, j | 0 <= i < j < |buckets| ensures buckets[i].key != buckets[j].key {
      LessTrichotomy(buckets[i].key, buckets[j].key);
    }
    forall o | o in rows ensures exists i :: 0 <= i < |buckets| && buckets[i].key == fine(o.id) {
      assert HasGroup(rows, fine, fine(o.id));
    }
  }

  // ----- the hierarchy of prefix lengths -----

  /** A coarse group differs only if one of the fine groups inside it does. */
  lemma {:induction false} DifferenceComesFromBelow(
    source: seq<Order>, target: seq<Order>, fine: string -> string, coarse: string -> string, b: string)
    requires forall o, p :: (o in source || o in target) && (p in source || p in target) && fine(o.id) == fine(p.id)
                            ==> coarse(o.id) == coarse(p.id)
    requires forall o :: (o in source || o in target) && coarse(o.id) == b ==>
             !Differs(source, target, fine, fine(o.id))
    ensures !Differs(source, target, coarse, b)
    decreases |source| + |target|
  {
    if source + target != [] {
      var x := if source != [] then source[0] else target[0];
      assert x in source || x in target;
      var c := fine(x.id);
      var s, t := OutsideGroup(source, fine, c), OutsideGroup(target, fine, c);
      OutsideGroupRows(source, fine, c);
      OutsideGroupRows(target, fine, c);
      assert HasGroup(source, fine, c) || HasGroup(target, fine, c);
      TakeOutGroup(source, fine, c, coarse, b, coarse(x.id) == b);
      TakeOutGroup(target, fine, c, coarse, b, coarse(x.id) == b);
      forall o | (o in s || o in t) && coarse(o.id) == b ensures !Differs(s, t, fine, fine(o.id)) {
        OtherGroupsStay(source, fine, c, fine(o.id));
        OtherGroupsStay(target, fine, c, fine(o.id));
        assert !Differs(source, target, fine, fine(o.id));
      }
      DifferenceComesFromBelow(s, t, fine, coarse, b);
    }
  }

  /** A mismatch at a prefix length leads to a mismatch at every greater length, in a bucket inside it. */
  lemma MismatchShowsAtGreaterLengths(source: seq<Order>, target: seq<Order>, length: nat, longer: nat, b: string)
    returns (d: string)
    requires length <= longer && Differs(source, target, ByPrefix(length), b)
    ensures Differs(source, target, ByPrefix(longer), d) && Prefix(d, length) == b
  {
    if o :| (o in source || o in target) && Prefix(o.id, length) == b
            && Differs(source, target, ByPrefix(longer), Prefix(o.id, longer)) {
      d := Prefix(o.id, longer);
    } else {
      forall o, p | Prefix(o, longer) == Prefix(p, longer) ensures Prefix(o, length) == Prefix(p, length) {
        assert Prefix(Prefix(o, longer), length) == Prefix(o, length);
        assert Prefix(Prefix(p, longer), length) == Prefix(p, length);
      }
      DifferenceComesFromBelow(source, target, ByPrefix(longer), ByPrefix(length), b);
      assert false;
    }
  }

  /** No mismatch at some prefix length: the aggregate check finds nothing either. */
  lemma NoMismatchMeansEqualAggregates(source: seq<Order>, target: seq<Order>, length: nat)
    requires forall b :: !Differs(source, target, ByPrefix(length), b)
    ensures AggregateMismatches(Summarize(source), Summarize(target)) == []
  {
    DifferenceComesFromBelow(source, target, ByPrefix(length), Everything(), "");
    AllRows(source);
    AllRows(target);
  }

  /** The buckets of a greater prefix length inside the bucket b. */
  function Inside(buckets: seq<Bucket>, length: nat, b: string): seq<Bucket> {
    if buckets == [] then []
    else
      var rest, last := Inside(buckets[..|buckets| - 1], length, b), buckets[|buckets| - 1];
      if Prefix(last.key, length) == b then rest + [last] else rest
  }

  lemma {:induction false} InsideMembers(buckets: seq<Bucket>, length: nat, b: string)
    ensures forall x :: x in Inside(buckets, length, b) <==> x in buckets && Prefix(x.key, length) == b
  {
    if buckets != [] {
      var front, last := buckets[..|buckets| - 1], buckets[|buckets| - 1];
      InsideMembers(front, length, b);
      assert buckets == front + [last];
    }
  }

  ghost predicate DistinctKeys(buckets: seq<Bucket>) {
    forall i, j :: 0 <= i < j < |buckets| ==> buckets[i].key != buckets[j].key
  }

  lemma {:induction false} InsideDistinct(buckets: seq<Bucket>, length: nat, b: string)
    requires DistinctKeys(buckets)
    ensures DistinctKeys(Inside(buckets, length, b))
  {
    if buckets != [] {
      var front, last := buckets[..|buckets| - 1], buckets[|buckets| - 1];
      assert DistinctKeys(front);
      InsideDistinct(front, length, b);
      InsideMembers(front, length, b);
      var inside := Inside(front, length, b);
      forall i | 0 <= i < |inside| ensures inside[i].key != last.key {
        assert inside[i] in inside;
        var k :| 0 <= k < |front| && front[k] == inside[i];
        assert buckets[k].key != last.key;
      }
      assert DistinctKeys(inside + [last]);
    }
  }

  lemma PrefixOfPrefix(id: string, longer: nat, length: nat)
    requires length <= longer
    ensures Prefix(Prefix(id, longer), length) == Prefix(id, length)
  {
  }

  /** The longer prefixes inside a bucket tile it. */
  lemma InsideTiles(buckets: seq<Bucket>, rows: seq<Order>, length: nat, longer: nat, b: string)
    requires length <= longer && IsGroupBy(buckets, rows, ByPrefix(longer))
    ensures Tile(Inside(buckets, length, b), rows, ByPrefix(longer), ByPrefix(length), b)
  {
    forall i, j | 0 <= i < j < |buckets| ensures buckets[i].key != buckets[j].key {
      LessTrichotomy(buckets[i].key, buckets[j].key);
    }
    InsideMembers(buckets, length, b);
    InsideDistinct(buckets, length, b);
    var inside := Inside(buckets, length, b);
    forall i | 0 <= i < |inside| ensures inside[i].totals == GroupTotals(rows, ByPrefix(longer), inside[i].key) {
      assert inside[i] in inside;
    }
    forall o | o in rows
      ensures Prefix(o.id, length) == b <==> exists i :: 0 <= i < |inside| && inside[i].key == Prefix(o.id, longer)
    {
      PrefixOfPrefix(o.id, longer, length);
      if Prefix(o.id, length) == b {
        assert HasGroup(rows, ByPrefix(longer), ByPrefix(longer)(o.id));
        var k :| 0 <= k < |buckets| && buckets[k].key == Prefix(o.id, longer);
        assert buckets[k] in inside;
      }
      if i :| 0 <= i < |inside| && inside[i].key == Prefix(o.id, longer) {
        assert inside[i] in inside;
      }
    }
  }

  /**
   Across any two prefix lengths: a bucket's sums are those of the longer prefixes inside it, on either
   side, so it differs if and only if these add up differently. Where they cancel, the shorter length
   hides what the greater one shows.
   */
  lemma BucketDiffersIff(
    source: seq<Order>, target: seq<Order>, length: nat, longer: nat, b: string,
    sourceBuckets: seq<Bucket>, targetBuckets: seq<Bucket>)
    requires length <= longer
    requires IsGroupBy(sourceBuckets, source, ByPrefix(longer)) && IsGroupBy(targetBuckets, target, ByPrefix(longer))
    ensures SumTotals(Inside(sourceBuckets, length, b)) == GroupTotals(source, ByPrefix(length), b)
    ensures Differs(source, target, ByPrefix(length), b)
            <==> SumTotals(Inside(sourceBuckets, length, b)) != SumTotals(Inside(targetBuckets, length, b))
  {
    InsideTiles(sourceBuckets, source, length, longer, b);
    InsideTiles(targetBuckets, target, length, longer, b);
    TilesAddUp(Inside(sourceBuckets, length, b), source, ByPrefix(longer), ByPrefix(length), b);
    TilesAddUp(Inside(targetBuckets, length, b), target, ByPrefix(longer), ByPrefix(length), b);
  }

  /** They can cancel: amounts exchanged between two buckets show at length 2 but not at length 1. */
  lemma ShorterPrefixCanHideAMismatch()
    ensures var a := Order("xa", None, Some(1), None, Some(1), None);
            var b := Order("xb", None, Some(2), None, Some(1), None);
            var source, target := [a, b], [a.(amount := Some(2)), b.(amount := Some(1))];
            && Differs(source, target, ByPrefix(2), "xa")
            && (forall c :: !Differs(source, target, ByPrefix(1), c))
  {
    var a, b := Order("xa", None, Some(1), None, Some(1), None), Order("xb", None, Some(2), None, Some(1), None);
    var source, target := [a, b], [a.(amount := Some(2)), b.(amount := Some(1))];
    TwoRows(a, b, ByPrefix(2), "xa");
    TwoRows(target[0], target[1], ByPrefix(2), "xa");
    assert ByPrefix(1)("xa") == "x" && ByPrefix(1)("xb") == "x";
    forall c ensures !Differs(source, target, ByPrefix(1), c) {
      TwoRowsTogether(a, b, ByPrefix(1), c);
      TwoRowsTogether(target[0], target[1], ByPrefix(1), c);
      assert TotalsOfRow(a).Plus(TotalsOfRow(b)) == TotalsOfRow(target[0]).Plus(TotalsOfRow(target[1]));
    }
  }

  lemma TwoRowsTogether(a: Order, b: Order, key: string -> string, c: string)
    requires key(a.id) == key(b.id)
    ensures GroupTotals([a, b], key, c) == if key(a.id) == c then TotalsOfRow(a).Plus(TotalsOfRow(b)) else ZERO
  {
    TwoRows(a, b, key, c);
  }

  lemma TwoRows(a: Order, b: Order, key: string -> string, c: string)
    ensures GroupTotals([a, b], key, c)
            == (if key(a.id) == c then TotalsOfRow(a) else ZERO).Plus(if key(b.id) == c then TotalsOfRow(b) else ZERO)
  {
    OneMoreRow([], a, key, c);
    OneMoreRow([a], b, key, c);
    assert [] + [a] == [a] && [a] + [b] == [a, b];
  }

  // ----- narrowing -----

  lemma {:induction false} InBucketsMembers(rows: seq<Order>, length: nat, bs: set<string>)
    ensures forall o :: o in InBuckets(rows, length, bs) <==> o in rows && Prefix(o.id, length) in bs - {""}
  {
    if rows != [] {
      InBucketsMembers(rows[..|rows| - 1], length, bs);
      assert rows == rows[..|rows| - 1] + [rows[|rows| - 1]];
    }
  }

  /** Looking an id of an asked-for bucket up among the fetched rows is looking it up among all rows. */
  lemma {:induction false} FetchedDocuments(rows: seq<Order>, length: nat, bs: set<string>, id: string)
    requires Prefix(id, length) in bs - {""}
    ensures id in ById(InBuckets(rows, length, bs)) <==> id in ById(rows)
    ensures id in ById(rows) ==> ById(InBuckets(rows, length, bs))[id] == ById(rows)[id]
  {
    if rows != [] {
      var front, last := rows[..|rows| - 1], rows[|rows| - 1];
      FetchedDocuments(front, length, bs, id);
      var fetched := InBuckets(front, length, bs);
      assert InBuckets(rows, length, bs) == if Prefix(last.id, length) in bs - {""} then fetched + [last] else fetched;
      OneMoreDocument(fetched, last);
    }
  }

  lemma OneMoreDocument(rows: seq<Order>, o: Order)
    ensures ById(rows + [o]) == ById(rows)[o.id := o]
  {
    assert (rows + [o])[..|rows|] == rows;
  }

  lemma OneMoreFetched(rows: seq<Order>, o: Order, length: nat, bs: set<string>)
    ensures InBuckets(rows + [o], length, bs)
            == if Prefix(o.id, length) in bs - {""} then InBuckets(rows, length, bs) + [o]
               else InBuckets(rows, length, bs)
  {
    assert (rows + [o])[..|rows|] == rows;
  }

  lemma OneMoreStaleFetched(stale: seq<Stale>, x: Stale, length: nat, bs: set<string>)
    ensures StaleInBuckets(stale + [x], length, bs)
            == if Prefix(x.source.id, length) in bs - {""} then StaleInBuckets(stale, length, bs) + [x]
               else StaleInBuckets(stale, length, bs)
  {
    assert (stale + [x])[..|stale|] == stale;
  }

  lemma OneMoreMissing(rows: seq<Order>, o: Order, index: map<string, Order>)
    ensures MissingOf(rows + [o], index)
            == if o.id in index then MissingOf(rows, index) else MissingOf(rows, index) + [o]
  {
    assert (rows + [o])[..|rows|] == rows;
  }

  lemma OneMoreStale(rows: seq<Order>, o: Order, index: map<string, Order>)
    ensures StaleOf(rows + [o], index)
            == if o.id in index && !SameFields(o, index[o.id])
               then StaleOf(rows, index) + [Stale(o, index[o.id], DifferingFields(o, index[o.id]))]
               else StaleOf(rows, index)
  {
    assert (rows + [o])[..|rows|] == rows;
  }

  /** Two indexes agree on the ids of the asked-for buckets. */
  ghost predicate AgreeInBuckets(index: map<string, Order>, fetched: map<string, Order>, length: nat, bs: set<string>) {
    forall id :: Prefix(id, length) in bs - {""} ==>
      (id in fetched <==> id in index) && (id in index ==> fetched[id] == index[id])
  }

  lemma FetchedAgree(target: seq<Order>, length: nat, bs: set<string>)
    ensures AgreeInBuckets(ById(target), ById(InBuckets(target, length, bs)), length, bs)
  {
    forall id | Prefix(id, length) in bs - {""}
      ensures id in ById(InBuckets(target, length, bs)) <==> id in ById(target)
      ensures id in ById(target) ==> ById(InBuckets(target, length, bs))[id] == ById(target)[id]
    {
      FetchedDocuments(target, length, bs, id);
    }
  }

  /** The rows missing in the narrowed comparison are the full comparison's, restricted to the fetched buckets. */
  lemma NarrowedMissing(source: seq<Order>, target: seq<Order>, length: nat, bs: set<string>)
    ensures MissingOf(InBuckets(source, length, bs), ById(InBuckets(target, length, bs)))
            == InBuckets(MissingOf(source, ById(target)), length, bs)
  {
    FetchedAgree(target, length, bs);
    MissingInBuckets(source, ById(target), ById(InBuckets(target, length, bs)), length, bs);
  }

  lemma {:induction false} MissingInBuckets(
    source: seq<Order>, index: map<string, Order>, fetched: map<string, Order>, length: nat, bs: set<string>)
    requires AgreeInBuckets(index, fetched, length, bs)
    ensures MissingOf(InBuckets(source, length, bs), fetched) == InBuckets(MissingOf(source, index), length, bs)
  {
    if source != [] {
      var front, last := source[..|source| - 1], source[|source| - 1];
      MissingInBuckets(front, index, fetched, length, bs);
      MissingOneMore(front, last, index, fetched, length, bs);
      assert source == front + [last];
    }
  }

  lemma MissingOneMore(
    front: seq<Order>, o: Order, index: map<string, Order>, fetched: map<string, Order>, length: nat, bs: set<string>)
    requires AgreeInBuckets(index, fetched, length, bs)
    requires MissingOf(InBuckets(front, length, bs), fetched) == InBuckets(MissingOf(front, index), length, bs)
    ensures MissingOf(InBuckets(front + [o], length, bs), fetched)
            == InBuckets(MissingOf(front + [o], index), length, bs)
  {
    OneMoreFetched(front, o, length, bs);
    OneMoreMissing(front, o, index);
    OneMoreMissing(InBuckets(front, length, bs), o, fetched);
    OneMoreFetched(MissingOf(front, index), o, length, bs);
  }

  /** So are the stale ones. */
  lemma NarrowedStale(source: seq<Order>, target: seq<Order>, length: nat, bs: set<string>)
    ensures StaleOf(InBuckets(source, length, bs), ById(InBuckets(target, length, bs)))
            == StaleInBuckets(StaleOf(source, ById(target)), length, bs)
  {
    FetchedAgree(target, length, bs);
    StaleOfInBuckets(source, ById(target), ById(InBuckets(target, length, bs)), length, bs);
  }

  lemma {:induction false} StaleOfInBuckets(
    source: seq<Order>, index: map<string, Order>, fetched: map<string, Order>, length: nat, bs: set<string>)
    requires AgreeInBuckets(index, fetched, length, bs)
    ensures StaleOf(InBuckets(source, length, bs), fetched) == StaleInBuckets(StaleOf(source, index), length, bs)
  {
    if source != [] {
      var front, last := source[..|source| - 1], source[|source| - 1];
      StaleOfInBuckets(front, index, fetched, length, bs);
      StaleOneMore(front, last, index, fetched, length, bs);
      assert source == front + [last];
    }
  }

  lemma StaleOneMore(
    front: seq<Order>, o: Order, index: map<string, Order>, fetched: map<string, Order>, length: nat, bs: set<string>)
    requires AgreeInBuckets(index, fetched, length, bs)
    requires StaleOf(InBuckets(front, length, bs), fetched) == StaleInBuckets(StaleOf(front, index), length, bs)
    ensures StaleOf(InBuckets(front + [o], length, bs), fetched)
            == StaleInBuckets(StaleOf(front + [o], index), length, bs)
  {
    OneMoreFetched(front, o, length, bs);
    OneMoreStale(front, o, index);
    OneMoreStale(InBuckets(front, length, bs), o, fetched);
    if o.id in index {
      OneMoreStaleFetched(
        StaleOf(front, index), Stale(o, index[o.id], DifferingFields(o, index[o.id])), length, bs);
    }
  }

  lemma {:induction false} AllFetched(rows: seq<Order>, length: nat, bs: set<string>)
    requires forall o :: o in rows ==> Prefix(o.id, length) in bs - {""}
    ensures InBuckets(rows, length, bs) == rows
  {
    if rows != [] {
      var front, last := rows[..|rows| - 1], rows[|rows| - 1];
      assert last in rows && rows == front + [last];
      AllFetched(front, length, bs);
    }
  }

  lemma NothingFilteredOut(rows: seq<Order>, length: nat, bs: set<string>)
    ensures InBuckets(rows, length, bs) == rows <==> forall o :: o in rows ==> Prefix(o.id, length) in bs - {""}
  {
    InBucketsMembers(rows, length, bs);
    if forall o :: o in rows ==> Prefix(o.id, length) in bs - {""} {
      AllFetched(rows, length, bs);
    }
  }

  lemma {:induction false} StaleInBucketsMembers(stale: seq<Stale>, length: nat, bs: set<string>)
    ensures forall x :: x in StaleInBuckets(stale, length, bs) <==>
              x in stale && Prefix(x.source.id, length) in bs - {""}
  {
    if stale != [] {
      StaleInBucketsMembers(stale[..|stale| - 1], length, bs);
      assert stale == stale[..|stale| - 1] + [stale[|stale| - 1]];
    }
  }

  lemma {:induction false} AllStaleFetched(stale: seq<Stale>, length: nat, bs: set<string>)
    requires forall x :: x in stale ==> Prefix(x.source.id, length) in bs - {""}
    ensures StaleInBuckets(stale, length, bs) == stale
  {
    if stale != [] {
      var front, last := stale[..|stale| - 1], stale[|stale| - 1];
      assert last in stale && stale == front + [last];
      AllStaleFetched(front, length, bs);
    }
  }

  lemma NothingStaleFilteredOut(stale: seq<Stale>, length: nat, bs: set<string>)
    ensures StaleInBuckets(stale, length, bs) == stale
            <==> forall x :: x in stale ==> Prefix(x.source.id, length) in bs - {""}
  {
    StaleInBucketsMembers(stale, length, bs);
    if forall x :: x in stale ==> Prefix(x.source.id, length) in bs - {""} {
      AllStaleFetched(stale, length, bs);
    }
  }

  /**
   The checksum report against the full comparison of the rows as they are fetched: it lists exactly the
   drift in buckets whose sums differed before, so the lists are the full ones if and only if every
   drifted row lies in such a bucket.
   */
  lemma ReportRefinesFullComparison(r: Report, source: Reads, target: Reads, length: nat)
    requires IsReport(r, source, target, length)
    requires forall o :: o in source.fetched ==> Prefix(o.id, length) != ""
    ensures var missing := MissingOf(source.fetched, ById(target.fetched));
            var stale := StaleOf(source.fetched, ById(target.fetched));
            var bs := BucketsOf(r.mismatches);
            && r.missing == InBuckets(missing, length, bs) && r.stale == StaleInBuckets(stale, length, bs)
            && (r.missing == missing && r.stale == stale
                <==> (forall o :: o in missing ==>
                        Differs(source.summed, target.summed, ByPrefix(length), Prefix(o.id, length)))
                     && (forall x :: x in stale ==>
                           Differs(source.summed, target.summed, ByPrefix(length), Prefix(x.source.id, length))))
  {
    var bs := BucketsOf(r.mismatches);
    var missing := MissingOf(source.fetched, ById(target.fetched));
    var stale := StaleOf(source.fetched, ById(target.fetched));
    NarrowedMissing(source.fetched, target.fetched, length, bs);
    NarrowedStale(source.fetched, target.fetched, length, bs);
    DriftIsOfSourceRows(source.fetched, ById(target.fetched));
    ListedInFullIff(missing, stale, length, bs);
  }

  lemma ListedInFullIff(missing: seq<Order>, stale: seq<Stale>, length: nat, bs: set<string>)
    requires forall o :: o in missing ==> Prefix(o.id, length) != ""
    requires forall x :: x in stale ==> Prefix(x.source.id, length) != ""
    ensures InBuckets(missing, length, bs) == missing && StaleInBuckets(stale, length, bs) == stale
            <==> (forall o :: o in missing ==> Prefix(o.id, length) in bs)
                 && (forall x :: x in stale ==> Prefix(x.source.id, length) in bs)
  {
    NothingFilteredOut(missing, length, bs);
    NothingStaleFilteredOut(stale, length, bs);
  }

  lemma DriftIsOfSourceRows(source: seq<Order>, index: map<string, Order>)
    ensures forall o :: o in MissingOf(source, index) ==> o in source
    ensures forall x :: x in StaleOf(source, index) ==> x.source in source
  {
    MissingMembers(source, index);
    StaleMembers(source, index);
  }

  /** A report is healthy if and only if no bucket differs; in that case it lists no rows. */
  lemma HealthyMeansNoDifference(r: Report, source: Reads, target: Reads, length: nat)
    requires IsReport(r, source, target, length)
    ensures r.Status().Healthy? <==> forall b :: !Differs(source.summed, target.summed, ByPrefix(length), b)
  {
    var bs := BucketsOf(r.mismatches);
    var rows := InBuckets(source.fetched, length, bs);
    assert rows != [] ==> rows[0] in rows;
    if r.mismatches == [] {
      assert bs == {};
      InBucketsMembers(source.fetched, length, bs);
    } else {
      assert r.mismatches[0].bucket in bs;
    }
  }

  // ----- a target that only lost rows -----

  /** The rows left when those with a removed id are gone. */
  function Remaining(rows: seq<Order>, removed: set<string>): seq<Order> {
    if rows == [] then []
    else
      var rest, last := Remaining(rows[..|rows| - 1], removed), rows[|rows| - 1];
      if last.id in removed then rest else rest + [last]
  }

  lemma {:induction false} RemovalShowsInCount(rows: seq<Order>, removed: set<string>, key: string -> string, b: string)
    ensures GroupTotals(Remaining(rows, removed), key, b).count <= GroupTotals(rows, key, b).count
    ensures (exists o :: o in rows && o.id in removed && key(o.id) == b)
            ==> GroupTotals(Remaining(rows, removed), key, b).count < GroupTotals(rows, key, b).count
  {
    if rows != [] {
      var front, last := rows[..|rows| - 1], rows[|rows| - 1];
      RemovalShowsInCount(front, removed, key, b);
      if last.id !in removed {
        OneMoreRow(Remaining(front, removed), last, key, b);
        assert forall o :: o in rows && o.id in removed ==> o in front;
      }
    }
  }

  lemma {:induction false} RemainingRows(rows: seq<Order>, removed: set<string>)
    ensures forall o :: o in Remaining(rows, removed) <==> o in rows && o.id !in removed
  {
    if rows != [] {
      RemainingRows(rows[..|rows| - 1], removed);
      assert rows == rows[..|rows| - 1] + [rows[|rows| - 1]];
    }
  }

  /**
   If nothing changes during the check and the target is the source with rows removed, the lists are the full
   ones.
   */
  lemma LostRowsAreAllReported(r: Report, source: seq<Order>, removed: set<string>, length: nat)
    requires DistinctIds(source) && forall o :: o in source ==> Prefix(o.id, length) != ""
    requires IsReport(r, Reads(source, source), Reads(Remaining(source, removed), Remaining(source, removed)), length)
    ensures r.stale == [] && r.missing == MissingOf(source, ById(Remaining(source, removed)))
    ensures forall o :: o in r.missing <==> o in source && o.id in removed
  {
    var target := Remaining(source, removed);
    var missing, stale := MissingOf(source, ById(target)), StaleOf(source, ById(target));
    assert stale != [] ==> stale[0] in stale;
    RemainingRows(source, removed);
    DocumentsOf(target);
    MissingMembers(source, ById(target));
    StaleMembers(source, ById(target));
    forall x | x in source && x.id in ById(target) ensures ById(target)[x.id] == x {
      SameIdSameRow(source, x, ById(target)[x.id]);
    }
    assert forall x :: x in stale ==> x.source == x.target;
    assert forall o :: o in missing <==> o in source && o.id in removed;
    forall o | o in missing ensures Differs(source, target, ByPrefix(length), Prefix(o.id, length)) {
      RemovalShowsInCount(source, removed, ByPrefix(length), Prefix(o.id, length));
    }
    ReportRefinesFullComparison(r, Reads(source, source), Reads(target, target), length);
  }

  // ----- the filter, and the check that reads documents without it -----

  /** A paid order with an update time before the cutoff. */
  ghost function EligibleEntry(inTime: string -> bool): Order -> Option<Order> {
    (o: Order) =>
      if o.status == Some("paid") && o.updatedAt.Some? && inTime(o.updatedAt.value) then Some(o) else None
  }

  /** The queries return the paid orders before the cutoff: all of them, and no others. */
  lemma {:induction false} EligibleRows(rows: seq<Order>, inTime: string -> bool)
    ensures Lists(Eligible(rows, inTime), rows, EligibleEntry(inTime))
    ensures forall o :: o in Eligible(rows, inTime) <==> o in rows && EligibleEntry(inTime)(o) == Some(o)
  {
    if rows == [] {
      NothingListed(EligibleEntry(inTime));
    } else {
      EligibleRows(rows[..|rows| - 1], inTime);
      OneMoreEligible(rows[..|rows| - 1], rows[|rows| - 1], inTime);
      assert rows == rows[..|rows| - 1] + [rows[|rows| - 1]];
    }
    ListedEntries(Eligible(rows, inTime), rows, EligibleEntry(inTime));
  }

  lemma OneMoreEligible(rows: seq<Order>, o: Order, inTime: string -> bool)
    requires Lists(Eligible(rows, inTime), rows, EligibleEntry(inTime))
    ensures Lists(Eligible(rows + [o], inTime), rows + [o], EligibleEntry(inTime))
  {
    OneMoreListed(Eligible(rows, inTime), rows, EligibleEntry(inTime), o);
    assert (rows + [o])[..|rows|] == rows;
    assert Eligible(rows, inTime) + [] == Eligible(rows, inTime);
  }

  /** Looking an order up among the eligible documents is looking it up and then asking whether it is eligible. */
  lemma {:induction false} EligibleDocuments(docs: seq<Order>, inTime: string -> bool, id: string)
    requires DistinctIds(docs)
    ensures id in ById(Eligible(docs, inTime)) <==> id in ById(docs) && IsEligible(ById(docs)[id], inTime)
    ensures id in ById(Eligible(docs, inTime)) ==> ById(Eligible(docs, inTime))[id] == ById(docs)[id]
  {
    if docs != [] {
      var front, last := docs[..|docs| - 1], docs[|docs| - 1];
      EligibleDocuments(front, inTime, id);
      OneMoreDocument(Eligible(front, inTime), last);
      DocumentsOf(front);
      assert last.id !in ById(front);
    }
  }

  /**
   The comparison with the eligible documents against the existence check, which looks documents up
   whatever their status and age: an order is missing in the first if and only if it is missing in the
   second or its document is not eligible, and stale if and only if it is stale in the second and its
   document is eligible. An ineligible document that the existence check calls stale is thus missing
   here, and no order that is stale here differs in status.
   */
  lemma FilteredComparison(source: seq<Order>, docs: seq<Order>, inTime: string -> bool)
    requires DistinctIds(docs) && forall o :: o in source ==> o.status == Some("paid")
    ensures forall o :: o in MissingOf(source, ById(Eligible(docs, inTime))) <==>
              || o in MissingOf(source, ById(docs))
              || (o in source && o.id in ById(docs) && !IsEligible(ById(docs)[o.id], inTime))
    ensures forall x :: x in StaleOf(source, ById(Eligible(docs, inTime))) <==>
              x in StaleOf(source, ById(docs)) && IsEligible(x.target, inTime)
    ensures forall x :: x in StaleOf(source, ById(Eligible(docs, inTime))) ==> x.target.status == x.source.status
  {
    var index, all := ById(Eligible(docs, inTime)), ById(docs);
    MissingMembers(source, index);
    MissingMembers(source, all);
    StaleMembers(source, index);
    StaleMembers(source, all);
    forall o | o in source
      ensures o.id in index <==> o.id in all && IsEligible(all[o.id], inTime)
      ensures o.id in index ==> index[o.id] == all[o.id]
    {
      EligibleDocuments(docs, inTime, o.id);
    }
  }

  /** The checksum report against the existence check over the same source rows and all documents. */
  lemma ReportAgainstExistenceCheck(
    r: Report, source: Reads, targetStore: Reads, targetCutoff: string -> bool, length: nat)
    requires IsReport(r, source, Seen(targetStore, Cutoffs(targetCutoff, targetCutoff)), length)
    requires DistinctIds(targetStore.fetched)
    requires forall o :: o in source.fetched ==> o.status == Some("paid") && Prefix(o.id, length) != ""
    ensures var bs, all := BucketsOf(r.mismatches), ById(targetStore.fetched);
            && (forall o :: o in r.missing <==>
                  && Prefix(o.id, length) in bs
                  && (|| o in MissingOf(source.fetched, all)
                      || (o in source.fetched && o.id in all && !IsEligible(all[o.id], targetCutoff))))
            && (forall x :: x in r.stale <==>
                  && Prefix(x.source.id, length) in bs
                  && x in StaleOf(source.fetched, all) && IsEligible(x.target, targetCutoff))
  {
    var target := Seen(targetStore, Cutoffs(targetCutoff, targetCutoff));
    var bs := BucketsOf(r.mismatches);
    var missing := MissingOf(source.fetched, ById(target.fetched));
    var stale := StaleOf(source.fetched, ById(target.fetched));
    assert r.missing == InBuckets(missing, length, bs) && r.stale == StaleInBuckets(stale, length, bs) by {
      ReportRefinesFullComparison(r, source, target, length);
    }
    InBucketsMembers(missing, length, bs);
    StaleInBucketsMembers(stale, length, bs);
    DriftIsOfSourceRows(source.fetched, ById(target.fetched));
    FilteredComparison(source.fetched, targetStore.fetched, targetCutoff);
  }

  // ----- what the check sees of status and currency -----

  /** The documents when those of some orders have got a status that is not paid. */
  function Restated(rows: seq<Order>, ids: set<string>, status: Option<string>): seq<Order> {
    if rows == [] then []
    else
      var last := rows[|rows| - 1];
      Restated(rows[..|rows| - 1], ids, status) + [if last.id in ids then last.(status := status) else last]
  }

  lemma {:induction false} RestatedAreLost(source: seq<Order>, ids: set<string>, status: Option<string>,
      inTime: string -> bool)
    requires status != Some("paid") && forall o :: o in source ==> IsEligible(o, inTime)
    ensures Eligible(Restated(source, ids, status), inTime) == Remaining(source, ids)
  {
    if source != [] {
      var front, last := source[..|source| - 1], source[|source| - 1];
      assert last in source && source == front + [last];
      RestatedAreLost(front, ids, status, inTime);
      var docs, doc := Restated(front, ids, status), if last.id in ids then last.(status := status) else last;
      assert (docs + [doc])[..|docs|] == docs;
    }
  }

  /**
   Drift in status shows: where the documents differ from the source in nothing but the status of some
   orders, the report lists exactly those orders, as missing, because no query returns them.
   */
  lemma StatusDriftShows(
    r: Report, source: seq<Order>, ids: set<string>, status: Option<string>, inTime: string -> bool, length: nat)
    requires DistinctIds(source) && status != Some("paid")
    requires forall o :: o in source ==> IsEligible(o, inTime) && Prefix(o.id, length) != ""
    requires var docs := Restated(source, ids, status);
             IsReport(r, Reads(source, source), Seen(Reads(docs, docs), Cutoffs(inTime, inTime)), length)
    ensures r.stale == [] && forall o :: o in r.missing <==> o in source && o.id in ids
    ensures r.Status().Healthy? <==> forall o :: o in source ==> o.id !in ids
  {
    RestatedAreLost(source, ids, status, inTime);
    var target := Remaining(source, ids);
    LostRowsAreAllReported(r, source, ids, length);
    HealthyMeansNoDifference(r, Reads(source, source), Reads(target, target), length);
    forall o | o in source && o.id in ids ensures !r.Status().Healthy? {
      assert o in r.missing;
    }
    if forall o :: o in source ==> o.id !in ids {
      NothingLost(source, ids);
    }
  }

  lemma {:induction false} NothingLost(rows: seq<Order>, ids: set<string>)
    requires forall o :: o in rows ==> o.id !in ids
    ensures Remaining(rows, ids) == rows
  {
    if rows != [] {
      var front, last := rows[..|rows| - 1], rows[|rows| - 1];
      assert last in rows && rows == front + [last];
      NothingLost(front, ids);
    }
  }

  /** Currency never shows: documents that differ from the source in it alone leave every bucket's sums equal. */
  lemma {:induction false} CurrencyIsInvisible(
    source: seq<Order>, docs: seq<Order>, inTime: string -> bool, length: nat, b: string)
    requires |source| == |docs|
    requires forall i :: 0 <= i < |source| ==> docs[i] == source[i].(currency := docs[i].currency)
    ensures !Differs(Eligible(source, inTime), Eligible(docs, inTime), ByPrefix(length), b)
  {
    if source != [] {
      var n := |source| - 1;
      assert docs[n] == source[n].(currency := docs[n].currency);
      CurrencyIsInvisible(source[..n], docs[..n], inTime, length, b);
      OneMoreRow(Eligible(source[..n], inTime), source[n], ByPrefix(length), b);
      OneMoreRow(Eligible(docs[..n], inTime), docs[n], ByPrefix(length), b);
    }
  }

  /** So a checksum report is healthy over an order that the existence check reports for its currency. */
  lemma HealthyChecksumCanHideAStaleRow(r: Report, o: Order, currency: Option<string>, inTime: string -> bool,
      length: nat)
    requires IsEligible(o, inTime) && currency != o.currency
    requires var doc := o.(currency := currency);
             IsReport(r, Seen(Reads([o], [o]), Cutoffs(inTime, inTime)),
                      Seen(Reads([doc], [doc]), Cutoffs(inTime, inTime)), length)
    ensures r.Status().Healthy?
    ensures StaleOf([o], ById([o.(currency := currency)])) == [Stale(o, o.(currency := currency), ["currency"])]
  {
    var doc := o.(currency := currency);
    forall b ensures !Differs(Eligible([o], inTime), Eligible([doc], inTime), ByPrefix(length), b) {
      CurrencyIsInvisible([o], [doc], inTime, length, b);
    }
    HealthyMeansNoDifference(
      r, Seen(Reads([o], [o]), Cutoffs(inTime, inTime)), Seen(Reads([doc], [doc]), Cutoffs(inTime, inTime)), length);
    CurrencyIsCompared(o, currency);
  }

  lemma CurrencyIsCompared(o: Order, currency: Option<string>)
    requires currency != o.currency
    ensures var doc := o.(currency := currency);
            StaleOf([o], ById([doc])) == [Stale(o, doc, ["currency"])]
  {
    var doc := o.(currency := currency);
    OneMoreDocument([], doc);
    assert [] + [doc] == [doc] && [] + [o] == [o];
    var index := ById([doc]);
    assert o.id in index && index[o.id] == doc && !SameFields(o, doc);
    assert DifferingFields(o, doc) == ["currency"];
    OneMoreStale([], o, index);
    assert StaleOf([], index) == [];
  }

  // ----- one document that differs -----

  /** The rows are equal but for one, which has kept its id. */
  ghost predicate DifferAt(rows: seq<Order>, docs: seq<Order>, k: int) {
    && |docs| == |rows| && 0 <= k < |rows| && docs[k].id == rows[k].id
    && forall i :: 0 <= i < |rows| && i != k ==> docs[i] == rows[i]
  }

  /** Replacing a row changes the sums of its group by the difference of the two rows. */
  lemma {:induction false} GroupTotalsUpdate(
    rows: seq<Order>, docs: seq<Order>, k: int, key: string -> string, b: string)
    requires DifferAt(rows, docs, k)
    ensures var after, before := GroupTotals(docs, key, b), GroupTotals(rows, key, b);
            var inside := key(rows[k].id) == b;
            && after.count == before.count
            && after.amount == before.amount + (if inside then AmountOf(docs[k]) - AmountOf(rows[k]) else 0)
            && after.version == before.version + (if inside then VersionOf(docs[k]) - VersionOf(rows[k]) else 0)
  {
    var n := |rows| - 1;
    if k < n {
      GroupTotalsUpdate(rows[..n], docs[..n], k, key, b);
    } else {
      assert rows[..n] == docs[..n];
    }
  }

  lemma {:induction false} AllEligible(rows: seq<Order>, inTime: string -> bool)
    requires forall o :: o in rows ==> IsEligible(o, inTime)
    ensures Eligible(rows, inTime) == rows
  {
    if rows != [] {
      var front, last := rows[..|rows| - 1], rows[|rows| - 1];
      assert rows == front + [last] && last in rows;
      AllEligible(front, inTime);
    }
  }

  /** The documents are those of the source, but for one, which is eligible too. */
  ghost predicate OneReplaced(source: seq<Order>, docs: seq<Order>, k: int, inTime: string -> bool) {
    && DistinctIds(source) && DifferAt(source, docs, k)
    && (forall o :: o in source ==> IsEligible(o, inTime)) && IsEligible(docs[k], inTime)
  }

  lemma ReplacedAreEligible(source: seq<Order>, docs: seq<Order>, k: int, inTime: string -> bool)
    requires OneReplaced(source, docs, k, inTime)
    ensures Eligible(docs, inTime) == docs && DistinctIds(docs)
  {
    forall o | o in docs ensures IsEligible(o, inTime) {
      var i :| 0 <= i < |docs| && docs[i] == o;
      assert i != k ==> source[i] in source;
    }
    AllEligible(docs, inTime);
    assert forall i :: 0 <= i < |docs| ==> docs[i].id == source[i].id;
  }

  lemma ReplacedDocuments(source: seq<Order>, docs: seq<Order>, k: int)
    requires DistinctIds(source) && DistinctIds(docs) && DifferAt(source, docs, k)
    ensures forall o :: o in source ==> o.id in ById(docs) && ById(docs)[o.id] == if o == source[k] then docs[k] else o
  {
    forall o | o in source ensures o.id in ById(docs) && ById(docs)[o.id] == if o == source[k] then docs[k] else o {
      var i :| 0 <= i < |source| && source[i] == o;
      DocumentAt(docs, i);
      assert i != k ==> source[i].id != source[k].id;
    }
  }

  lemma DocumentAt(docs: seq<Order>, i: int)
    requires DistinctIds(docs) && 0 <= i < |docs|
    ensures docs[i].id in ById(docs) && ById(docs)[docs[i].id] == docs[i]
  {
    DocumentsOf(docs);
    assert docs[i] in docs;
  }

  /** Exactly the order's bucket differs, if the order's amount or version counts differently. */
  lemma OneDriftDiffers(
    source: seq<Order>, docs: seq<Order>, k: int, inTime: string -> bool, key: string -> string, b: string)
    requires OneReplaced(source, docs, k, inTime)
    ensures Differs(source, docs, key, b)
            <==> key(source[k].id) == b
                 && (AmountOf(source[k]) != AmountOf(docs[k]) || VersionOf(source[k]) != VersionOf(docs[k]))
  {
    GroupTotalsUpdate(source, docs, k, key, b);
  }

  /**
   One document that differs, and is found by the queries, shows if and only if its amount or its version
   counts differently: then exactly its order's bucket mismatches, and the order is listed as stale, in
   the fields in which it differs.
   */
  lemma OneDriftShowsIff(
    r: Report, source: seq<Order>, docs: seq<Order>, k: int, inTime: string -> bool, length: nat)
    requires OneReplaced(source, docs, k, inTime)
    requires forall o :: o in source ==> Prefix(o.id, length) != ""
    requires IsReport(r, Reads(source, source), Seen(Reads(docs, docs), Cutoffs(inTime, inTime)), length)
    ensures var shows := AmountOf(source[k]) != AmountOf(docs[k]) || VersionOf(source[k]) != VersionOf(docs[k]);
            && (forall b :: b in BucketsOf(r.mismatches) <==> shows && b == Prefix(source[k].id, length))
            && r.missing == []
            && (forall x :: x in r.stale <==>
                  shows && x == Stale(source[k], docs[k], DifferingFields(source[k], docs[k])))
            && (r.Status() == DriftDetected <==> shows) && (r.Status() == Healthy <==> !shows)
  {
    var shows := AmountOf(source[k]) != AmountOf(docs[k]) || VersionOf(source[k]) != VersionOf(docs[k]);
    assert Eligible(docs, inTime) == docs by { ReplacedAreEligible(source, docs, k, inTime); }
    var bs := BucketsOf(r.mismatches);
    forall b ensures b in bs <==> shows && b == Prefix(source[k].id, length) {
      OneDriftDiffers(source, docs, k, inTime, ByPrefix(length), b);
    }
    OneDriftListed(r, source, docs, k, inTime, length);
    StatusByBuckets(r, Reads(source, source), Reads(docs, docs), length);
    assert shows ==> Prefix(source[k].id, length) in bs;
  }

  lemma OneDriftListed(
    r: Report, source: seq<Order>, docs: seq<Order>, k: int, inTime: string -> bool, length: nat)
    requires OneReplaced(source, docs, k, inTime)
    requires forall o :: o in source ==> Prefix(o.id, length) != ""
    requires IsReport(r, Reads(source, source), Reads(docs, docs), length)
    ensures r.missing == []
    ensures forall x :: x in r.stale <==>
              && Prefix(source[k].id, length) in BucketsOf(r.mismatches) && !SameFields(source[k], docs[k])
              && x == Stale(source[k], docs[k], DifferingFields(source[k], docs[k]))
  {
    var bs := BucketsOf(r.mismatches);
    assert source[k] in source;
    assert r.missing == InBuckets(MissingOf(source, ById(docs)), length, bs)
           && r.stale == StaleInBuckets(StaleOf(source, ById(docs)), length, bs) by {
      ReportRefinesFullComparison(r, Reads(source, source), Reads(docs, docs), length);
    }
    StaleOfReplaced(source, docs, k, inTime);
    StaleInBucketsMembers(StaleOf(source, ById(docs)), length, bs);
  }

  lemma StatusByBuckets(r: Report, source: Reads, target: Reads, length: nat)
    requires IsReport(r, source, target, length)
    ensures r.Status() == if BucketsOf(r.mismatches) == {} then Healthy else DriftDetected
  {
    HealthyMeansNoDifference(r, source, target, length);
    assert r.mismatches != [] ==> r.mismatches[0].bucket in BucketsOf(r.mismatches);
  }

  lemma StaleOfReplaced(source: seq<Order>, docs: seq<Order>, k: int, inTime: string -> bool)
    requires OneReplaced(source, docs, k, inTime)
    ensures MissingOf(source, ById(docs)) == []
    ensures forall x :: x in StaleOf(source, ById(docs)) <==>
              !SameFields(source[k], docs[k]) && x == Stale(source[k], docs[k], DifferingFields(source[k], docs[k]))
  {
    ReplacedAreEligible(source, docs, k, inTime);
    ReplacedDocuments(source, docs, k);
    OnlyOneDiffers(source, ById(docs), source[k], docs[k]);
  }

  lemma OnlyOneDiffers(source: seq<Order>, index: map<string, Order>, o: Order, doc: Order)
    requires o in source
    requires forall p :: p in source ==> p.id in index && index[p.id] == if p == o then doc else p
    ensures MissingOf(source, index) == []
    ensures forall x :: x in StaleOf(source, index) <==>
              !SameFields(o, doc) && x == Stale(o, doc, DifferingFields(o, doc))
  {
    var missing := MissingOf(source, index);
    assert missing != [] ==> missing[0] in missing;
    MissingMembers(source, index);
    StaleMembers(source, index);
  }

  /** A document that lags behind in its version alone is found, and listed as stale in "version". */
  lemma VersionDriftShows(
    r: Report, source: seq<Order>, k: int, version: int, inTime: string -> bool, length: nat)
    requires DistinctIds(source) && 0 <= k < |source| && source[k].version.Some? && source[k].version.value != version
    requires forall o :: o in source ==> IsEligible(o, inTime) && Prefix(o.id, length) != ""
    requires var docs := source[k := source[k].(version := Some(version))];
             IsReport(r, Reads(source, source), Seen(Reads(docs, docs), Cutoffs(inTime, inTime)), length)
    ensures var doc := source[k].(version := Some(version));
            && (forall b :: b in BucketsOf(r.mismatches) <==> b == Prefix(source[k].id, length))
            && r.missing == [] && (forall x :: x in r.stale <==> x == Stale(source[k], doc, ["version"]))
            && r.Status() == DriftDetected
  {
    var docs := source[k := source[k].(version := Some(version))];
    assert source[k] in source;
    OneDriftShowsIff(r, source, docs, k, inTime, length);
  }
}
