/**
 The change-data-capture frontier of a check (`checker.build_cdc_frontier`): whether the outbox, the
 Kafka topic and the target's applied offsets show that everything eligible has reached the target.
 */
module CdcFrontier {
  import opened Common
  import Indexer

  /** A row of `order_events_outbox`; the publication columns are null until it is published. */
  datatype OutboxEvent = OutboxEvent(
    orderId: string, createdAt: int, publishedAt: Option<int>,
    topic: Option<string>, partition: Option<int>, offset: Option<int>)

  /** One group of the outbox frontier: the highest offset published to a partition of a topic. */
  datatype Published = Published(topic: string, partition: int, maxOffset: Option<int>)

  datatype Outbox = Outbox(
    available: bool, publishedCount: int, unpublishedCount: int, offsetRecordedCount: int, published: seq<Published>)

  datatype PartitionEnd = PartitionEnd(partition: int, end: Option<int>)

  datatype Stream = Stream(eventCount: Option<int>, start: Option<int>, end: Option<int>, ends: seq<PartitionEnd>)

  datatype AppliedOffset = AppliedOffset(topic: string, partition: int, maxOffset: Option<int>)

  datatype Target = Target(available: bool, applied: seq<AppliedOffset>)

  datatype Status = Bounded | Partial | Unavailable

  datatype Reason =
    | NoSourceLsn
    | NoOutbox
    | UnpublishedEvents(count: int)
    | OffsetsMissing(count: int)
    | NoStreamOffsets
    | StreamHasFewerEvents(stream: int, outbox: int)
    | NoTargetFrontier
    | OtherTopic(topic: string)
    | NoPartitionEnd(partition: int)
    | EndNotBeyond(partition: int, end: int, published: int)
    | NoAppliedOffset(partition: int)
    | AppliedBehind(partition: int, applied: int, published: int)

  // ----- the outbox query -----

  predicate Eligible(e: OutboxEvent, cutoff: int) { e.createdAt <= cutoff }

  predicate Recorded(e: OutboxEvent) {
    e.publishedAt.Some? && e.topic.Some? && e.partition.Some? && e.offset.Some?
  }

  function CountIf(events: seq<OutboxEvent>, cutoff: int, p: OutboxEvent -> bool): nat {
    if events == [] then 0
    else CountIf(events[1..], cutoff, p) + (if Eligible(events[0], cutoff) && p(events[0]) then 1 else 0)
  }

  /**
   The frontier is the aggregate of the eligible events: its counts, and a group at least as high as each
   recorded offset.
   */
  ghost predicate IsFrontierOf(o: Outbox, events: seq<OutboxEvent>, cutoff: int) {
    && o.publishedCount == CountIf(events, cutoff, (e: OutboxEvent) => e.publishedAt.Some?)
    && o.unpublishedCount == CountIf(events, cutoff, (e: OutboxEvent) => e.publishedAt.None?)
    && o.offsetRecordedCount == CountIf(events, cutoff, Recorded)
    && (forall e :: e in events && Eligible(e, cutoff) && Recorded(e) ==>
          exists g :: g in o.published && g.topic == e.topic.value && g.partition == e.partition.value
                      && g.maxOffset.Some? && e.offset.value <= g.maxOffset.value)
  }

  lemma {:induction false} NoneLeftOut(events: seq<OutboxEvent>, cutoff: int, p: OutboxEvent -> bool,
      q: OutboxEvent -> bool)
    requires forall e :: q(e) ==> p(e)
    ensures CountIf(events, cutoff, q) <= CountIf(events, cutoff, p)
    ensures CountIf(events, cutoff, q) == CountIf(events, cutoff, p) ==>
              forall e :: e in events && Eligible(e, cutoff) && p(e) ==> q(e)
  {
    if events != [] {
      NoneLeftOut(events[1..], cutoff, p, q);
    }
  }

  lemma {:induction false} CountZero(events: seq<OutboxEvent>, cutoff: int, p: OutboxEvent -> bool)
    requires CountIf(events, cutoff, p) == 0
    ensures forall e :: e in events && Eligible(e, cutoff) ==> !p(e)
  {
    if events != [] {
      CountZero(events[1..], cutoff, p);
    }
  }

  // ----- the verdict -----

  /** The end of each partition; of several entries for one partition the last counts. */
  function Ends(ends: seq<PartitionEnd>): map<int, Option<int>> {
    if ends == [] then map[] else Ends(ends[..|ends| - 1])[ends[|ends| - 1].partition := ends[|ends| - 1].end]
  }

  function AppliedOffsets(applied: seq<AppliedOffset>): map<(string, int), Option<int>> {
    if applied == [] then map[]
    else
      var last := applied[|applied| - 1];
      AppliedOffsets(applied[..|applied| - 1])[(last.topic, last.partition) := last.maxOffset]
  }

  function Get<K>(m: map<K, Option<int>>, k: K): Option<int> {
    if k in m then m[k] else None
  }

  /** The entry at i is the last one for the partition. */
  ghost predicate LastEnd(ends: seq<PartitionEnd>, p: int, i: int) {
    0 <= i < |ends| && ends[i].partition == p && forall j :: i < j < |ends| ==> ends[j].partition != p
  }

  ghost predicate LastApplied(applied: seq<AppliedOffset>, topic: string, p: int, i: int) {
    && 0 <= i < |applied| && applied[i].topic == topic && applied[i].partition == p
    && forall j :: i < j < |applied| ==> !(applied[j].topic == topic && applied[j].partition == p)
  }

  /** The partition is listed with this end. */
  ghost predicate ListsEnd(ends: seq<PartitionEnd>, p: int, end: int) {
    exists i :: LastEnd(ends, p, i) && ends[i].end == Some(end)
  }

  ghost predicate ListsApplied(applied: seq<AppliedOffset>, topic: string, p: int, max: int) {
    exists i :: LastApplied(applied, topic, p, i) && applied[i].maxOffset == Some(max)
  }

  /** Looking an end up finds the last entry of the partition, the only one if the partitions are distinct. */
  lemma {:induction false} EndsAre(ends: seq<PartitionEnd>, p: int)
    ensures forall end :: Get(Ends(ends), p) == Some(end) <==> ListsEnd(ends, p, end)
    ensures p in Ends(ends) <==> exists i :: LastEnd(ends, p, i)
    ensures (forall i, j :: 0 <= i < j < |ends| ==> ends[i].partition != ends[j].partition) ==>
              forall end :: Get(Ends(ends), p) == Some(end) <==> PartitionEnd(p, Some(end)) in ends
  {
    var i := EndFound(ends, p);
    forall end ensures Get(Ends(ends), p) == Some(end) <==> ListsEnd(ends, p, end) {
      if ListsEnd(ends, p, end) {
        var j :| LastEnd(ends, p, j) && ends[j].end == Some(end);
        assert p in Ends(ends) && !(i < j) && !(j < i);
      }
    }
  }

  lemma {:induction false} EndFound(ends: seq<PartitionEnd>, p: int) returns (i: nat)
    ensures p in Ends(ends) ==> LastEnd(ends, p, i) && Ends(ends)[p] == ends[i].end
    ensures p !in Ends(ends) ==> forall j :: 0 <= j < |ends| ==> ends[j].partition != p
  {
    i := 0;
    if ends != [] {
      var n := |ends| - 1;
      i := EndFound(ends[..n], p);
      i := if ends[n].partition == p then n else i;
      assert forall j :: 0 <= j < n ==> ends[..n][j] == ends[j];
    }
  }

  /** So does looking an applied offset up. */
  lemma {:induction false} AppliedAre(applied: seq<AppliedOffset>, topic: string, p: int)
    ensures forall max :: Get(AppliedOffsets(applied), (topic, p)) == Some(max)
                          <==> ListsApplied(applied, topic, p, max)
    ensures (topic, p) in AppliedOffsets(applied) <==> exists i :: LastApplied(applied, topic, p, i)
    ensures (forall i, j :: 0 <= i < j < |applied| ==>
               applied[i].topic != applied[j].topic || applied[i].partition != applied[j].partition) ==>
              forall max :: Get(AppliedOffsets(applied), (topic, p)) == Some(max)
                            <==> AppliedOffset(topic, p, Some(max)) in applied
  {
    var i := AppliedFound(applied, topic, p);
    forall max
      ensures Get(AppliedOffsets(applied), (topic, p)) == Some(max) <==> ListsApplied(applied, topic, p, max)
    {
      if ListsApplied(applied, topic, p, max) {
        var j :| LastApplied(applied, topic, p, j) && applied[j].maxOffset == Some(max);
        assert (topic, p) in AppliedOffsets(applied) && !(i < j) && !(j < i);
      }
    }
  }

  lemma {:induction false} AppliedFound(applied: seq<AppliedOffset>, topic: string, p: int) returns (i: nat)
    ensures (topic, p) in AppliedOffsets(applied) ==>
              LastApplied(applied, topic, p, i) && AppliedOffsets(applied)[(topic, p)] == applied[i].maxOffset
    ensures (topic, p) !in AppliedOffsets(applied) ==>
              forall j :: 0 <= j < |applied| ==> !(applied[j].topic == topic && applied[j].partition == p)
  {
    i := 0;
    if applied != [] {
      var n := |applied| - 1;
      i := AppliedFound(applied[..n], topic, p);
      i := if applied[n].topic == topic && applied[n].partition == p then n else i;
      assert forall j :: 0 <= j < n ==> applied[..n][j] == applied[j];
    }
  }

  /** The lists show that the published partition is covered: its end is beyond it, and the target not behind it. */
  ghost predicate ShownCovered(g: Published, topic: string, ends: seq<PartitionEnd>, applied: seq<AppliedOffset>) {
    && g.topic == topic && g.maxOffset.Some?
    && (exists end :: ListsEnd(ends, g.partition, end) && g.maxOffset.value < end)
    && (exists max :: ListsApplied(applied, topic, g.partition, max) && g.maxOffset.value <= max)
  }

  lemma CoveredIsShown(g: Published, topic: string, ends: seq<PartitionEnd>, applied: seq<AppliedOffset>)
    ensures Covered(g, topic, Ends(ends), true, AppliedOffsets(applied)) <==> ShownCovered(g, topic, ends, applied)
  {
    EndsAre(ends, g.partition);
    AppliedAre(applied, topic, g.partition);
    var end, max := Get(Ends(ends), g.partition), Get(AppliedOffsets(applied), (topic, g.partition));
    assert end.Some? ==> ListsEnd(ends, g.partition, end.value);
    assert max.Some? ==> ListsApplied(applied, topic, g.partition, max.value);
  }

  /**
   A published partition is covered: known end beyond it, and, if the target is known, an applied offset not
   behind it.
   */
  predicate Covered(
    g: Published, topic: string, ends: map<int, Option<int>>, targetAvailable: bool,
    applied: map<(string, int), Option<int>>)
  {
    && g.topic == topic
    && g.maxOffset.Some?
    && Get(ends, g.partition).Some? && g.maxOffset.value < Get(ends, g.partition).value
    && (targetAvailable ==>
          Get(applied, (topic, g.partition)).Some? && g.maxOffset.value <= Get(applied, (topic, g.partition)).value)
  }

  predicate StreamKnown(s: Stream) { s.eventCount.Some? && s.start.Some? && s.end.Some? }

  /** What a bounded verdict asserts about its inputs. */
  ghost predicate BoundsCheck(
    lsn: Option<string>, outbox: Option<Outbox>, stream: Stream, topic: string, target: Option<Target>)
  {
    && lsn.Some? && lsn.value != ""
    && outbox.Some? && outbox.value.available
    && outbox.value.unpublishedCount <= 0
    && outbox.value.offsetRecordedCount >= outbox.value.publishedCount
    && StreamKnown(stream) && stream.eventCount.value >= outbox.value.publishedCount
    && target.Some? && target.value.available
    && forall g :: g in outbox.value.published ==> ShownCovered(g, topic, stream.ends, target.value.applied)
  }

  function PartitionReasons(
    g: Published, topic: string, ends: map<int, Option<int>>, targetAvailable: bool,
    applied: map<(string, int), Option<int>>)
    : (r: seq<Reason>)
    ensures r == [] <==> Covered(g, topic, ends, targetAvailable, applied)
  {
    if g.topic != topic then [OtherTopic(g.topic)]
    else
      match (Get(ends, g.partition), g.maxOffset)
      case (Some(end), Some(published)) =>
        (if end <= published then [EndNotBeyond(g.partition, end, published)] else [])
        + (if !targetAvailable then []
           else match Get(applied, (topic, g.partition))
             case None => [NoAppliedOffset(g.partition)]
             case Some(max) => if max < published then [AppliedBehind(g.partition, max, published)] else [])
      case _ => [NoPartitionEnd(g.partition)]
  }

  function AllPartitionReasons(
    groups: seq<Published>, topic: string, ends: map<int, Option<int>>, targetAvailable: bool,
    applied: map<(string, int), Option<int>>)
    : seq<Reason>
  {
    if groups == [] then []
    else
      AllPartitionReasons(groups[..|groups| - 1], topic, ends, targetAvailable, applied)
      + PartitionReasons(groups[|groups| - 1], topic, ends, targetAvailable, applied)
  }

  function Add(reasons: seq<Reason>, applies: bool, reason: Reason): seq<Reason> {
    if applies then reasons + [reason] else reasons
  }

  function OrUnavailable(outbox: Option<Outbox>): Outbox {
    if outbox.Some? then outbox.value else Outbox(false, 0, 0, 0, [])
  }

  /** The reasons that concern the source: its log and its outbox. */
  function SourceReasons(lsn: Option<string>, outbox: Option<Outbox>): seq<Reason> {
    var o := OrUnavailable(outbox);
    var r1 := Add([], lsn.None? || lsn.value == "", NoSourceLsn);
    var r2 := Add(r1, !o.available, NoOutbox);
    var r3 := Add(r2, o.available && o.unpublishedCount > 0, UnpublishedEvents(o.unpublishedCount));
    Add(r3, o.available && o.offsetRecordedCount < o.publishedCount,
        OffsetsMissing(o.publishedCount - o.offsetRecordedCount))
  }

  /** The reasons that concern the stores as wholes. */
  function StoreReasons(lsn: Option<string>, outbox: Option<Outbox>, stream: Stream,
      target: Option<Target>): seq<Reason> {
    var o := OrUnavailable(outbox);
    var events := if stream.eventCount.Some? then stream.eventCount.value else 0;
    var r1 := Add(SourceReasons(lsn, outbox), !StreamKnown(stream), NoStreamOffsets);
    var r2 := Add(r1, StreamKnown(stream) && o.available && events < o.publishedCount,
        StreamHasFewerEvents(events, o.publishedCount));
    Add(r2, target.None? || !target.value.available, NoTargetFrontier)
  }

  /** One published partition's part of the loop. */
  method CheckPartition(
    g: Published, topic: string, ends: map<int, Option<int>>, targetAvailable: bool,
    applied: map<(string, int), Option<int>>)
    returns (reasons: seq<Reason>)
    ensures reasons == PartitionReasons(g, topic, ends, targetAvailable, applied)
  {
    if g.topic != topic {
      return [OtherTopic(g.topic)];
    }
    var end := Get(ends, g.partition);
    if end.None? || g.maxOffset.None? {
      return [NoPartitionEnd(g.partition)];
    }
    reasons := [];
    if end.value <= g.maxOffset.value {
      reasons := reasons + [EndNotBeyond(g.partition, end.value, g.maxOffset.value)];
    }
    if targetAvailable {
      var max := Get(applied, (topic, g.partition));
      if max.None? {
        reasons := reasons + [NoAppliedOffset(g.partition)];
      } else if max.value < g.maxOffset.value {
        reasons := reasons + [AppliedBehind(g.partition, max.value, g.maxOffset.value)];
      }
    }
  }

  /** The checks of the source's log and outbox. */
  method CheckSource(lsn: Option<string>, outbox: Option<Outbox>) returns (status: Status, reasons: seq<Reason>)
    ensures reasons == SourceReasons(lsn, outbox)
    ensures status == if reasons == [] then Bounded else Partial
  {
    reasons := [];
    status := Bounded;
    if lsn.None? || lsn.value == "" {
      status, reasons := Partial, reasons + [NoSourceLsn];
    }
    var outboxAvailable := outbox.Some? && outbox.value.available;
    if !outboxAvailable {
      status, reasons := Partial, reasons + [NoOutbox];
    }
    if outboxAvailable && outbox.value.unpublishedCount > 0 {
      status, reasons := Partial, reasons + [UnpublishedEvents(outbox.value.unpublishedCount)];
    }
    if outboxAvailable && outbox.value.offsetRecordedCount < outbox.value.publishedCount {
      var missing := outbox.value.publishedCount - outbox.value.offsetRecordedCount;
      status, reasons := Partial, reasons + [OffsetsMissing(missing)];
    }
  }

  /** The checks before the loop over the published partitions. */
  method CheckStores(lsn: Option<string>, outbox: Option<Outbox>, stream: Stream, target: Option<Target>)
    returns (status: Status, reasons: seq<Reason>)
    ensures reasons == StoreReasons(lsn, outbox, stream, target)
    ensures status == if reasons == [] then Bounded else Partial
  {
    status, reasons := CheckSource(lsn, outbox);
    if !StreamKnown(stream) {
      status, reasons := Partial, reasons + [NoStreamOffsets];
    } else if outbox.Some? && outbox.value.available && stream.eventCount.value < outbox.value.publishedCount {
      var fewer := StreamHasFewerEvents(stream.eventCount.value, outbox.value.publishedCount);
      status, reasons := Partial, reasons + [fewer];
    }
    if target.None? || !target.value.available {
      status, reasons := Partial, reasons + [NoTargetFrontier];
    }
  }

  method BuildCdcFrontier(
    lsn: Option<string>, outbox: Option<Outbox>, stream: Stream, topic: string, target: Option<Target>)
    returns (status: Status, reasons: seq<Reason>)
    ensures status == Bounded <==> BoundsCheck(lsn, outbox, stream, topic, target)
    ensures status == Unavailable <==>
              (lsn.None? || lsn.value == "") && (outbox.None? || !outbox.value.available) && stream.eventCount.None?
    ensures reasons == StoreReasons(lsn, outbox, stream, target)
                       + AllPartitionReasons(if outbox.Some? then outbox.value.published else [],
                                             topic, Ends(stream.ends),
                                             target.Some? && target.value.available,
                                             AppliedOffsets(if target.Some? then target.value.applied else []))
  {
    status, reasons := CheckStores(lsn, outbox, stream, target);
    var ends := Ends(stream.ends);
    var targetAvailable := target.Some? && target.value.available;
    var applied := AppliedOffsets(if target.Some? then target.value.applied else []);
    var groups := if outbox.Some? then outbox.value.published else [];
    var uncovered := CheckPartitions(groups, topic, ends, targetAvailable, applied);
    if uncovered != [] {
      status, reasons := Partial, reasons + uncovered;
    }
    NoReasonMeansCovered(groups, topic, ends, targetAvailable, applied);
    StoresInOrder(lsn, outbox, stream, target);
    forall g ensures Covered(g, topic, ends, true, applied)
                     <==> ShownCovered(g, topic, stream.ends, if target.Some? then target.value.applied else []) {
      CoveredIsShown(g, topic, stream.ends, if target.Some? then target.value.applied else []);
    }
    if (lsn.None? || lsn.value == "") && (outbox.None? || !outbox.value.available) && stream.eventCount.None? {
      status := Unavailable;
    }
  }

  /** The loop over the published partitions. */
  method CheckPartitions(
    groups: seq<Published>, topic: string, ends: map<int, Option<int>>, targetAvailable: bool,
    applied: map<(string, int), Option<int>>)
    returns (reasons: seq<Reason>)
    ensures reasons == AllPartitionReasons(groups, topic, ends, targetAvailable, applied)
  {
    reasons := [];
    for i := 0 to |groups|
      invariant reasons == AllPartitionReasons(groups[..i], topic, ends, targetAvailable, applied)
    {
      assert groups[..i + 1][..i] == groups[..i];
      var found := CheckPartition(groups[i], topic, ends, targetAvailable, applied);
      reasons := reasons + found;
    }
    assert groups[..|groups|] == groups;
  }

  lemma {:induction false} NoReasonMeansCovered(
    groups: seq<Published>, topic: string, ends: map<int, Option<int>>, targetAvailable: bool,
    applied: map<(string, int), Option<int>>)
    ensures AllPartitionReasons(groups, topic, ends, targetAvailable, applied) == []
            <==> forall g :: g in groups ==> Covered(g, topic, ends, targetAvailable, applied)
  {
    if groups != [] {
      var front, last := groups[..|groups| - 1], groups[|groups| - 1];
      NoReasonMeansCovered(front, topic, ends, targetAvailable, applied);
      assert groups == front + [last];
      assert PartitionReasons(last, topic, ends, targetAvailable, applied) == []
             <==> Covered(last, topic, ends, targetAvailable, applied);
      assert AllPartitionReasons(groups, topic, ends, targetAvailable, applied) == []
             <==> AllPartitionReasons(front, topic, ends, targetAvailable, applied) == []
                  && PartitionReasons(last, topic, ends, targetAvailable, applied) == [];
    }
  }

  // ----- the reasons, one kind after the other -----

  lemma AddMembers(reasons: seq<Reason>, applies: bool, reason: Reason)
    ensures forall r :: r in Add(reasons, applies, reason) <==> r in reasons || (applies && r == reason)
  {
  }

  lemma SourceReasonMembers(lsn: Option<string>, outbox: Option<Outbox>)
    ensures var o := OrUnavailable(outbox);
            forall r :: r in SourceReasons(lsn, outbox) <==>
              || (r == NoSourceLsn && lsn in {None, Some("")})
              || (r == NoOutbox && !o.available)
              || (r == UnpublishedEvents(o.unpublishedCount) && o.available && o.unpublishedCount > 0)
              || (r == OffsetsMissing(o.publishedCount - o.offsetRecordedCount)
                  && o.available && o.offsetRecordedCount < o.publishedCount)
  {
    var o := OrUnavailable(outbox);
    var r1 := Add([], lsn.None? || lsn.value == "", NoSourceLsn);
    var r2 := Add(r1, !o.available, NoOutbox);
    var r3 := Add(r2, o.available && o.unpublishedCount > 0, UnpublishedEvents(o.unpublishedCount));
    AddMembers([], lsn.None? || lsn.value == "", NoSourceLsn);
    AddMembers(r1, !o.available, NoOutbox);
    AddMembers(r2, o.available && o.unpublishedCount > 0, UnpublishedEvents(o.unpublishedCount));
    AddMembers(r3, o.available && o.offsetRecordedCount < o.publishedCount,
               OffsetsMissing(o.publishedCount - o.offsetRecordedCount));
  }

  /** The reasons that concern the stores as wholes are given exactly when they apply, with the figures compared. */
  lemma StoreReasonsAre(lsn: Option<string>, outbox: Option<Outbox>, stream: Stream, target: Option<Target>)
    ensures var available := outbox.Some? && outbox.value.available;
            var known := stream.eventCount.Some? && stream.start.Some? && stream.end.Some?;
            forall r :: r in StoreReasons(lsn, outbox, stream, target) <==>
              match r
              case NoSourceLsn => lsn in {None, Some("")}
              case NoOutbox => !available
              case UnpublishedEvents(n) => available && n == outbox.value.unpublishedCount > 0
              case OffsetsMissing(n) =>
                available && n == outbox.value.publishedCount - outbox.value.offsetRecordedCount > 0
              case NoStreamOffsets => !known
              case StreamHasFewerEvents(s, o) =>
                known && available && s == stream.eventCount.value < o == outbox.value.publishedCount
              case NoTargetFrontier => target.None? || !target.value.available
              case _ => false
  {
    var o := OrUnavailable(outbox);
    var events := if stream.eventCount.Some? then stream.eventCount.value else 0;
    var r0 := SourceReasons(lsn, outbox);
    var r1 := Add(r0, !StreamKnown(stream), NoStreamOffsets);
    var fewer := StreamKnown(stream) && o.available && events < o.publishedCount;
    var r2 := Add(r1, fewer, StreamHasFewerEvents(events, o.publishedCount));
    SourceReasonMembers(lsn, outbox);
    AddMembers(r0, !StreamKnown(stream), NoStreamOffsets);
    AddMembers(r1, fewer, StreamHasFewerEvents(events, o.publishedCount));
    AddMembers(r2, target.None? || !target.value.available, NoTargetFrontier);
  }

  /** A group of the outbox frontier gives this reason. */
  ghost predicate Gives(
    g: Published, topic: string, ends: seq<PartitionEnd>, targetAvailable: bool, applied: seq<AppliedOffset>, r: Reason)
  {
    if g.topic != topic then r == OtherTopic(g.topic)
    else if g.maxOffset.None? || forall end :: !ListsEnd(ends, g.partition, end) then r == NoPartitionEnd(g.partition)
    else
      var published := g.maxOffset.value;
      || (exists end :: ListsEnd(ends, g.partition, end) && end <= published
            && r == EndNotBeyond(g.partition, end, published))
      || (targetAvailable && (forall max :: !ListsApplied(applied, topic, g.partition, max))
          && r == NoAppliedOffset(g.partition))
      || (targetAvailable
          && exists max :: ListsApplied(applied, topic, g.partition, max) && max < published
               && r == AppliedBehind(g.partition, max, published))
  }

  lemma GroupReasonsAre(
    g: Published, topic: string, ends: seq<PartitionEnd>, targetAvailable: bool, applied: seq<AppliedOffset>)
    ensures forall r :: r in PartitionReasons(g, topic, Ends(ends), targetAvailable, AppliedOffsets(applied))
                        <==> Gives(g, topic, ends, targetAvailable, applied, r)
  {
    EndsAre(ends, g.partition);
    AppliedAre(applied, topic, g.partition);
    var end, max := Get(Ends(ends), g.partition), Get(AppliedOffsets(applied), (topic, g.partition));
    assert end.Some? ==> ListsEnd(ends, g.partition, end.value);
    assert max.Some? ==> ListsApplied(applied, topic, g.partition, max.value);
    assert forall e :: ListsEnd(ends, g.partition, e) <==> end == Some(e);
    assert forall m :: ListsApplied(applied, topic, g.partition, m) <==> max == Some(m);
  }

  /** The partition loop gives exactly the reasons of the groups. */
  lemma {:induction false} PartitionReasonsAre(
    groups: seq<Published>, topic: string, ends: seq<PartitionEnd>, targetAvailable: bool, applied: seq<AppliedOffset>)
    ensures forall r ::
              r in AllPartitionReasons(groups, topic, Ends(ends), targetAvailable, AppliedOffsets(applied))
              <==> exists g :: g in groups && Gives(g, topic, ends, targetAvailable, applied, r)
  {
    if groups != [] {
      var front, last := groups[..|groups| - 1], groups[|groups| - 1];
      PartitionReasonsAre(front, topic, ends, targetAvailable, applied);
      GroupReasonsAre(last, topic, ends, targetAvailable, applied);
      assert groups == front + [last];
    }
  }

  lemma StoresInOrder(lsn: Option<string>, outbox: Option<Outbox>, stream: Stream, target: Option<Target>)
    ensures StoreReasons(lsn, outbox, stream, target) == [] <==>
            && lsn.Some? && lsn.value != ""
            && outbox.Some? && outbox.value.available
            && outbox.value.unpublishedCount <= 0
            && outbox.value.offsetRecordedCount >= outbox.value.publishedCount
            && StreamKnown(stream) && stream.eventCount.value >= outbox.value.publishedCount
            && target.Some? && target.value.available
  {
  }

  /**
   A bounded verdict covers every event: each eligible outbox event has been published, to the
   configured topic, with a recorded partition and offset, below the end of that partition and not
   behind the highest offset the target has applied there.
   */
  lemma BoundedCoversEveryEvent(
    events: seq<OutboxEvent>, cutoff: int,
    lsn: Option<string>, outbox: Outbox, stream: Stream, topic: string, target: Target, e: OutboxEvent)
    requires IsFrontierOf(outbox, events, cutoff)
    requires BoundsCheck(lsn, Some(outbox), stream, topic, Some(target))
    requires e in events && e.createdAt <= cutoff
    ensures Recorded(e) && e.topic.value == topic
    ensures exists x :: x in stream.ends && x.partition == e.partition.value
              && x.end.Some? && e.offset.value < x.end.value
    ensures exists a :: a in target.applied && a.topic == topic && a.partition == e.partition.value
              && a.maxOffset.Some? && e.offset.value <= a.maxOffset.value
  {
    var published := (e: OutboxEvent) => e.publishedAt.Some?;
    CountZero(events, cutoff, (e: OutboxEvent) => e.publishedAt.None?);
    NoneLeftOut(events, cutoff, published, Recorded);
    assert published(e);
    var g :| g in outbox.published && g.topic == e.topic.value && g.partition == e.partition.value
             && g.maxOffset.Some? && e.offset.value <= g.maxOffset.value;
    var end :| ListsEnd(stream.ends, g.partition, end) && g.maxOffset.value < end;
    var i :| LastEnd(stream.ends, g.partition, i) && stream.ends[i].end == Some(end);
    assert stream.ends[i] in stream.ends;
    var max :| ListsApplied(target.applied, topic, g.partition, max) && g.maxOffset.value <= max;
    var j :| LastApplied(target.applied, topic, g.partition, j) && target.applied[j].maxOffset == Some(max);
    assert target.applied[j] in target.applied;
  }

  // ----- the target's applied offsets -----

  /** The offset evidence of a stored document; documents not written from Kafka have none. */
  datatype Evidence = Evidence(topic: string, partition: int, offset: int)

  /** How many documents a topic and partition have, and the highest offset among them. */
  datatype Frontier = Frontier(eventCount: nat, maxApplied: int)

  function CountIn(documents: seq<Option<Evidence>>, topic: string, partition: int): nat {
    if documents == [] then 0
    else
      var last := documents[|documents| - 1];
      CountIn(documents[..|documents| - 1], topic, partition)
      + (if last.Some? && last.value.topic == topic && last.value.partition == partition then 1 else 0)
  }

  /** Per topic and partition, over the documents (`cache.target_offset_frontier`). */
  method TargetOffsetFrontier(documents: seq<Option<Evidence>>)
    returns (count: nat, offsets: map<(string, int), Frontier>)
    ensures forall d :: Some(d) in documents ==>
              (d.topic, d.partition) in offsets && d.offset <= offsets[(d.topic, d.partition)].maxApplied
    ensures forall k :: k in offsets ==> Some(Evidence(k.0, k.1, offsets[k].maxApplied)) in documents
    ensures forall k :: k in offsets ==> offsets[k].eventCount == CountIn(documents, k.0, k.1)
    ensures count == |documents| - multiset(documents)[None]
  {
    count, offsets := 0, map[];
    for i := 0 to |documents|
      invariant forall d :: Some(d) in documents[..i] ==>
                  (d.topic, d.partition) in offsets && d.offset <= offsets[(d.topic, d.partition)].maxApplied
      invariant forall k :: k in offsets ==> Some(Evidence(k.0, k.1, offsets[k].maxApplied)) in documents[..i]
      invariant AreCounts(offsets, documents[..i])
      invariant count == i - multiset(documents[..i])[None]
    {
      assert documents[..i + 1] == documents[..i] + [documents[i]];
      CountsOneMore(offsets, documents[..i], documents[i]);
      if documents[i].None? {
        continue;
      }
      var d := documents[i].value;
      count := count + 1;
      var key := (d.topic, d.partition);
      var current := if key in offsets then offsets[key] else Frontier(0, d.offset);
      var max := if d.offset > current.maxApplied then d.offset else current.maxApplied;
      offsets := offsets[key := Frontier(current.eventCount + 1, max)];
    }
    assert documents[..|documents|] == documents;
  }

  /** The entries count their documents, and a topic and partition without an entry has none. */
  ghost predicate AreCounts(offsets: map<(string, int), Frontier>, documents: seq<Option<Evidence>>) {
    forall k: (string, int) :: CountIn(documents, k.0, k.1) == if k in offsets then offsets[k].eventCount else 0
  }

  /** The positions of a partition's documents. */
  ghost function DocumentsIn(documents: seq<Option<Evidence>>, topic: string, partition: int): set<int> {
    set i | 0 <= i < |documents| && documents[i].Some?
            && documents[i].value.topic == topic && documents[i].value.partition == partition
  }

  lemma {:induction false} CountInIs(documents: seq<Option<Evidence>>, topic: string, partition: int)
    ensures CountIn(documents, topic, partition) == |DocumentsIn(documents, topic, partition)|
  {
    if documents != [] {
      CountInIs(documents[..|documents| - 1], topic, partition);
      OneMoreDocumentIn(documents, topic, partition);
    }
  }

  lemma OneMoreDocumentIn(documents: seq<Option<Evidence>>, topic: string, partition: int)
    requires documents != []
    ensures var n := |documents| - 1;
            var before, last := DocumentsIn(documents[..n], topic, partition), documents[n];
            var counts := last.Some? && last.value.topic == topic && last.value.partition == partition;
            n !in before && DocumentsIn(documents, topic, partition) == before + if counts then {n} else {}
  {
  }

  lemma CountsOneMore(offsets: map<(string, int), Frontier>, documents: seq<Option<Evidence>>,
      document: Option<Evidence>)
    requires AreCounts(offsets, documents)
    ensures document.None? ==> AreCounts(offsets, documents + [document])
    ensures document.Some? ==>
              var key := (document.value.topic, document.value.partition);
              forall next: Frontier ::
                next.eventCount == (if key in offsets then offsets[key].eventCount else 0) + 1 ==>
                AreCounts(offsets[key := next], documents + [document])
  {
    assert (documents + [document])[..|documents|] == documents;
  }

  // ----- with the consumer that built the target -----

  /** The target frontier was read off the index: each applied offset is that of some document. */
  ghost predicate ReadFromIndex(target: Target, topic: string, index: Indexer.Index) {
    forall a :: a in target.applied && a.topic == topic && a.maxOffset.Some? ==>
      exists id :: id in index && index[id].partition == a.partition && index[id].offset == a.maxOffset.value
  }

  /** A recorded offset is where the event is in the log of its partition. */
  ghost predicate InLog(e: OutboxEvent, logs: Indexer.Logs) {
    && Recorded(e)
    && e.partition.value in logs && 0 <= e.offset.value < |logs[e.partition.value]|
    && logs[e.partition.value][e.offset.value].orderId == e.orderId
  }

  /**
   The consumer has written the event, and the order's document is of its last written event, this one or a
   later one.
   */
  ghost predicate InTarget(e: OutboxEvent, logs: Indexer.Logs, s: Indexer.State) {
    && Recorded(e)
    && Indexer.Applied(logs, s, e.partition.value, e.offset.value)
    && e.orderId in s.index
    && Indexer.IsLastApplied(logs, s, e.orderId, s.index[e.orderId])
    && s.index[e.orderId].partition == e.partition.value && s.index[e.orderId].offset >= e.offset.value
  }

  /**
   Against a target built by the consumer, in whatever interleaving with crashes and skips, a bounded
   verdict means that every eligible event has been consumed, and that it is in the target unless the
   consumer skipped it. With a consumer that skips nothing the frontier alone proves the target current.
   */
  lemma BoundedMeansConsumed(
    events: seq<OutboxEvent>, cutoff: int,
    lsn: Option<string>, outbox: Outbox, stream: Stream, topic: string, target: Target,
    logs: Indexer.Logs, s: Indexer.State, e: OutboxEvent)
    requires IsFrontierOf(outbox, events, cutoff)
    requires BoundsCheck(lsn, Some(outbox), stream, topic, Some(target))
    requires Indexer.KeyedByOrder(logs) && Indexer.OffsetsInStep(logs, s) && Indexer.IndexIsFold(logs, s)
    requires ReadFromIndex(target, topic, s.index)
    requires e in events && e.createdAt <= cutoff && (Recorded(e) ==> InLog(e, logs))
    ensures Recorded(e) && e.partition.value in s.reached && e.offset.value < s.reached[e.partition.value]
    ensures (e.partition.value, e.offset.value) !in s.skipped <==> InTarget(e, logs, s)
  {
    BoundedCoversEveryEvent(events, cutoff, lsn, outbox, stream, topic, target, e);
    var p, o := e.partition.value, e.offset.value;
    var a :| a in target.applied && a.topic == topic && a.partition == p && a.maxOffset.Some? && o <= a.maxOffset.value;
    var id :| id in s.index && s.index[id].partition == p && s.index[id].offset == a.maxOffset.value;
    assert Indexer.IsLastApplied(logs, s, id, s.index[id]);
    if (p, o) !in s.skipped {
      assert Indexer.Applied(logs, s, p, o);
      var d := s.index[e.orderId];
      assert Indexer.IsLastApplied(logs, s, e.orderId, d);
      assert d.partition == p;
    }
  }

  /**
   Whatever has happened to the consumer, deliveries, crashes and redeliveries in any order from its
   first start on: as long as it skips nothing, a bounded verdict means that every eligible event is in
   the target, as of its order's last applied event.
   */
  lemma BoundedWithoutSkipsMeansCurrent(
    events: seq<OutboxEvent>, cutoff: int,
    lsn: Option<string>, outbox: Outbox, stream: Stream, topic: string, target: Target,
    logs: Indexer.Logs, steps: seq<Indexer.Step>, e: OutboxEvent)
    requires IsFrontierOf(outbox, events, cutoff)
    requires BoundsCheck(lsn, Some(outbox), stream, topic, Some(target))
    requires Indexer.KeyedByOrder(logs) && forall i :: 0 <= i < |steps| ==> !steps[i].SkipNext?
    requires ReadFromIndex(target, topic, Indexer.AfterSteps(logs, Indexer.Fresh(logs), steps).index)
    requires e in events && e.createdAt <= cutoff && (Recorded(e) ==> InLog(e, logs))
    ensures InTarget(e, logs, Indexer.AfterSteps(logs, Indexer.Fresh(logs), steps))
  {
    var s := Indexer.AfterSteps(logs, Indexer.Fresh(logs), steps);
    Indexer.FreshIsInStep(logs);
    Indexer.EveryInterleavingConverges(logs, Indexer.Fresh(logs), steps);
    Indexer.NoSkipsNothingSkipped(logs, Indexer.Fresh(logs), steps);
    BoundedMeansConsumed(events, cutoff, lsn, outbox, stream, topic, target, logs, s, e);
  }

  /** With skips, a bounded verdict can hide a lost event: here the first of two orders never reaches the target. */
  lemma BoundedCanHideASkip()
    ensures var a, b := Indexer.Event("a", true, "a1"), Indexer.Event("b", true, "b1");
            var logs: Indexer.Logs := map[0 := [a, b]];
            var s := Indexer.AfterSteps(logs, Indexer.Fresh(logs),
                                        [Indexer.SkipNext(0), Indexer.Commit, Indexer.WriteNext(0, 5), Indexer.Commit]);
            var outbox := Outbox(true, 2, 0, 2, [Published("t", 0, Some(1))]);
            var events := [OutboxEvent("a", 0, Some(1), Some("t"), Some(0), Some(0)),
                           OutboxEvent("b", 0, Some(1), Some("t"), Some(0), Some(1))];
            var stream := Stream(Some(2), Some(0), Some(2), [PartitionEnd(0, Some(2))]);
            var target := Target(true, [AppliedOffset("t", 0, Some(1))]);
            && IsFrontierOf(outbox, events, 3)
            && BoundsCheck(Some("0/1"), Some(outbox), stream, "t", Some(target))
            && ReadFromIndex(target, "t", s.index)
            && "a" !in s.index
  {
    var a, b := Indexer.Event("a", true, "a1"), Indexer.Event("b", true, "b1");
    var logs: Indexer.Logs := map[0 := [a, b]];
    var s0 := Indexer.Fresh(logs);
    var steps := [Indexer.SkipNext(0), Indexer.Commit, Indexer.WriteNext(0, 5), Indexer.Commit];
    var s1 := Indexer.AfterStep(logs, s0, steps[0]);
    var s2 := Indexer.AfterStep(logs, s1, steps[1]);
    var s3 := Indexer.AfterStep(logs, s2, steps[2]);
    var s4 := Indexer.AfterStep(logs, s3, steps[3]);
    assert Indexer.AfterSteps(logs, s0, steps) == s4 by {
      assert steps[1..][1..] == steps[2..] && steps[2..][1..] == steps[3..] && steps[3..][1..] == [];
      assert Indexer.AfterSteps(logs, s2, steps[2..]) == Indexer.AfterSteps(logs, s4, []);
    }
    assert s4.index == map["b" := Indexer.Doc("b1", 0, 1, 5)];
    var e0 := OutboxEvent("a", 0, Some(1), Some("t"), Some(0), Some(0));
    var e1 := OutboxEvent("b", 0, Some(1), Some("t"), Some(0), Some(1));
    assert [e0, e1][1..] == [e1] && [e1][1..] == [];
    var applied := [AppliedOffset("t", 0, Some(1))];
    assert LastApplied(applied, "t", 0, 0) && ListsApplied(applied, "t", 0, 1);
    var ends := [PartitionEnd(0, Some(2))];
    assert LastEnd(ends, 0, 0) && ListsEnd(ends, 0, 2);
    assert s4.index["b"].offset == 1;
  }
}
