/**
 The consumer that builds the search index from the order events (`indexer.run_indexer`): it writes
 each event's order to the index and then commits the event's offset, one message at a time.

 `RunIndexer` is one process run that ends normally. The state machine below it lets the process
 crash between any two of its calls and start over from the committed offsets.
 */
module Indexer {
  import opened Arithmetic
  import opened Common

  /** An order event; its offset is its position in the log of its partition. */
  datatype Event = Event(orderId: string, paid: bool, content: string)

  /** An index document: the order as of the event it was written from, and where that event is. */
  datatype Doc = Doc(content: string, partition: int, offset: nat, indexedAt: int)

  type Index = map<string, Doc>

  function DocOf(e: Event, partition: int, offset: nat, at: int): Doc {
    Doc(e.content, partition, offset, at)
  }

  // ----- one process run -----

  /** How many messages a run takes: the limit is looked at after a message, so a limit of zero still takes one. */
  function Deliveries(available: nat, maxMessages: Option<int>): nat {
    if maxMessages.None? || available <= maxMessages.value then available
    else if maxMessages.value < 1 then (if available < 1 then available else 1)
    else maxMessages.value
  }

  /**
   A run takes all there is up to the limit, but takes the limit to be at least one: so it keeps the
   limit if and only if that is positive, or zero with nothing to take.
   */
  lemma LimitIsKeptIff(available: nat, limit: int)
    ensures var least := if limit < 1 then 1 else limit;
            Deliveries(available, Some(limit)) == if available < least then available else least
    ensures Deliveries(available, Some(limit)) <= limit <==> limit >= 1 || (limit == 0 && available == 0)
  {
  }

  function PaidCount(events: seq<Event>): nat {
    if events == [] then 0
    else PaidCount(events[..|events| - 1]) + (if events[|events| - 1].paid then 1 else 0)
  }

  /** The injected consumer fault: every `skipEvery`-th paid event of the run is committed unwritten. */
  predicate IsSkipped(events: seq<Event>, k: int, skipEvery: int)
    requires 0 <= k < |events|
  {
    skipEvery != 0 && events[k].paid && PaidCount(events[..k + 1]) % skipEvery == 0
  }

  function SkippedCount(events: seq<Event>, skipEvery: int): nat {
    if events == [] then 0
    else
      var n := |events| - 1;
      SkippedCount(events[..n], skipEvery) + (if IsSkipped(events, n, skipEvery) then 1 else 0)
  }

  /** The index after a run over `events`, whose offsets begin at `base`. */
  function Written(index: Index, events: seq<Event>, base: nat, partition: int, skipEvery: int,
      clock: nat -> int): Index {
    if events == [] then index
    else
      var n := |events| - 1;
      var before := Written(index, events[..n], base, partition, skipEvery, clock);
      if IsSkipped(events, n, skipEvery) then before
      else before[events[n].orderId := DocOf(events[n], partition, base + n, clock(n))]
  }

  class IndexerProcess {
    var index: Index
    var committed: nat

    constructor (index: Index, committed: nat)
      ensures this.index == index && this.committed == committed
    {
      this.index, this.committed := index, committed;
    }

    /** A run over the partition's log, from the committed offset on; `clock(k)` is the time of the k-th write. */
    method RunIndexer(log: seq<Event>, partition: int, maxMessages: Option<int>, skipEvery: int, clock: nat -> int)
      returns (processed: nat, indexed: nat, skipped: nat)
      requires committed <= |log|
      modifies this
      ensures processed == Deliveries(|log| - old(committed), maxMessages)
      ensures maxMessages.Some? ==>
                (processed <= maxMessages.value
                 <==> maxMessages.value >= 1 || (maxMessages.value == 0 && old(committed) == |log|))
      ensures processed == indexed + skipped
      ensures committed == old(committed) + processed
      ensures index == Written(old(index), log[old(committed)..committed], old(committed), partition, skipEvery, clock)
      ensures skipped == SkippedCount(log[old(committed)..committed], skipEvery)
    {
      processed, indexed, skipped := 0, 0, 0;
      var paidSeen := 0;
      ghost var start, was := committed, index;
      while committed < |log|
        invariant start <= committed <= |log|
        invariant processed == indexed + skipped == committed - start
        invariant maxMessages.Some? && processed > 0 ==> processed < maxMessages.value
        invariant IsTally(was, log[start..committed], start, partition, skipEvery, clock, index, paidSeen, skipped)
        decreases |log| - committed
      {
        var event := log[committed];
        OneMore(was, log, start, committed, partition, skipEvery, clock, index, paidSeen, skipped);
        var skip := false;
        if event.paid {
          paidSeen := paidSeen + 1;
          skip := skipEvery != 0 && paidSeen % skipEvery == 0;
        }
        if skip {
          skipped := skipped + 1;
        } else {
          index := index[event.orderId := DocOf(event, partition, committed, clock(processed))];
          indexed := indexed + 1;
        }
        processed, committed := processed + 1, committed + 1;
        if maxMessages.Some? && processed >= maxMessages.value {
          break;
        }
      }
    }
  }

  /** The index, the paid events and the skipped ones after a run over `events`. */
  ghost predicate IsTally(
    was: Index, events: seq<Event>, base: nat, partition: int, skipEvery: int, clock: nat -> int,
    index: Index, paid: nat, skipped: nat)
  {
    && index == Written(was, events, base, partition, skipEvery, clock)
    && paid == PaidCount(events) && skipped == SkippedCount(events, skipEvery)
  }

  /** What one more event does to them. */
  lemma OneMore(
    was: Index, log: seq<Event>, start: nat, end: nat, partition: int, skipEvery: int, clock: nat -> int,
    index: Index, paid: nat, skipped: nat)
    requires start <= end < |log|
    requires IsTally(was, log[start..end], start, partition, skipEvery, clock, index, paid, skipped)
    ensures var paid' := if log[end].paid then paid + 1 else paid;
            var events := log[start..end + 1];
            if log[end].paid && skipEvery != 0 && paid' % skipEvery == 0 then
              IsTally(was, events, start, partition, skipEvery, clock, index, paid', skipped + 1)
            else
              IsTally(was, events, start, partition, skipEvery, clock,
                      index[log[end].orderId := DocOf(log[end], partition, end, clock(end - start))], paid', skipped)
  {
    var events := log[start..end + 1];
    assert events[..|events| - 1] == log[start..end] && events[..|events|] == events;
  }

  /** Of the paid events of a run, every `skipEvery`-th is skipped; the sign does not matter, and zero skips none. */
  lemma {:induction false} EveryNthPaidIsSkipped(events: seq<Event>, skipEvery: int)
    ensures skipEvery != 0 ==> SkippedCount(events, skipEvery) == PaidCount(events) / Absolute(skipEvery)
    ensures skipEvery == 0 ==> SkippedCount(events, skipEvery) == 0
  {
    if events != [] {
      var front := events[..|events| - 1];
      EveryNthPaidIsSkipped(front, skipEvery);
      assert events[..|events| - 1 + 1] == events;
      if skipEvery != 0 {
        NextMultiple(PaidCount(front), Absolute(skipEvery));
        SignDoesNotMatter(PaidCount(events), skipEvery);
      }
    }
  }

  // ----- what a run counts and writes -----

  ghost function PaidPositions(events: seq<Event>): set<int> {
    set i | 0 <= i < |events| && events[i].paid
  }

  ghost function SkippedPositions(events: seq<Event>, skipEvery: int): set<int> {
    set i | 0 <= i < |events| && IsSkipped(events, i, skipEvery)
  }

  lemma {:induction false} PaidCountIs(events: seq<Event>)
    ensures PaidCount(events) == |PaidPositions(events)|
  {
    if events != [] {
      var n := |events| - 1;
      PaidCountIs(events[..n]);
      assert PaidPositions(events)
             == if events[n].paid then PaidPositions(events[..n]) + {n} else PaidPositions(events[..n]);
    }
  }

  /** An event is left unwritten exactly if it is paid, and the paid ones up to it are a multiple of the skip value. */
  lemma SkippedIff(events: seq<Event>, k: nat, skipEvery: int)
    requires k < |events|
    ensures IsSkipped(events, k, skipEvery)
            <==> events[k].paid && skipEvery != 0 && |PaidPositions(events[..k + 1])| % Absolute(skipEvery) == 0
  {
    PaidCountIs(events[..k + 1]);
    if skipEvery != 0 {
      SignDoesNotMatter(PaidCount(events[..k + 1]), skipEvery);
    }
  }

  lemma SkippedInFront(events: seq<Event>, i: int, skipEvery: int)
    requires 0 <= i < |events| - 1
    ensures IsSkipped(events[..|events| - 1], i, skipEvery) <==> IsSkipped(events, i, skipEvery)
  {
    assert events[..|events| - 1][..i + 1] == events[..i + 1];
  }

  lemma SkippedPositionsOneMore(events: seq<Event>, skipEvery: int)
    requires events != []
    ensures var n := |events| - 1;
            SkippedPositions(events, skipEvery)
            == SkippedPositions(events[..n], skipEvery) + (if IsSkipped(events, n, skipEvery) then {n} else {})
  {
    var n := |events| - 1;
    forall i | 0 <= i < n ensures IsSkipped(events[..n], i, skipEvery) <==> IsSkipped(events, i, skipEvery) {
      SkippedInFront(events, i, skipEvery);
    }
  }

  lemma {:induction false} SkippedCountIs(events: seq<Event>, skipEvery: int)
    ensures SkippedCount(events, skipEvery) == |SkippedPositions(events, skipEvery)|
  {
    if events != [] {
      var n := |events| - 1;
      SkippedCountIs(events[..n], skipEvery);
      SkippedPositionsOneMore(events, skipEvery);
      assert n !in SkippedPositions(events[..n], skipEvery);
    }
  }

  /** The event at k is the last one of its order that the run writes. */
  ghost predicate LastWritten(events: seq<Event>, k: int, id: string, skipEvery: int) {
    && 0 <= k < |events| && events[k].orderId == id && !IsSkipped(events, k, skipEvery)
    && forall j :: k < j < |events| && events[j].orderId == id ==> IsSkipped(events, j, skipEvery)
  }

  /** Each order's document is that of its last written event, or, without one, the document from before. */
  ghost predicate IsWrittenFor(
    after: Index, index: Index, events: seq<Event>, base: nat, partition: int, skipEvery: int, clock: nat -> int,
    id: string)
  {
    && (forall k :: LastWritten(events, k, id, skipEvery) ==>
          id in after && after[id] == Doc(events[k].content, partition, base + k, clock(k)))
    && ((forall k :: !LastWritten(events, k, id, skipEvery)) ==>
          (id in after <==> id in index) && (id in index ==> after[id] == index[id]))
  }

  lemma {:induction false} WrittenIs(
    index: Index, events: seq<Event>, base: nat, partition: int, skipEvery: int, clock: nat -> int, id: string)
    ensures IsWrittenFor(Written(index, events, base, partition, skipEvery, clock),
                         index, events, base, partition, skipEvery, clock, id)
  {
    if events != [] {
      var n := |events| - 1;
      WrittenIs(index, events[..n], base, partition, skipEvery, clock, id);
      var before := Written(index, events[..n], base, partition, skipEvery, clock);
      var after := Written(index, events, base, partition, skipEvery, clock);
      if events[n].orderId == id && !IsSkipped(events, n, skipEvery) {
        assert LastWritten(events, n, id, skipEvery);
        assert after[id] == Doc(events[n].content, partition, base + n, clock(n));
      } else {
        assert (id in after <==> id in before) && (id in before ==> after[id] == before[id]);
        NotWrittenNow(before, after, index, events, base, partition, skipEvery, clock, id);
      }
    }
  }

  lemma NotWrittenNow(
    before: Index, after: Index, index: Index, events: seq<Event>, base: nat, partition: int, skipEvery: int,
    clock: nat -> int, id: string)
    requires events != []
    requires events[|events| - 1].orderId != id || IsSkipped(events, |events| - 1, skipEvery)
    requires IsWrittenFor(before, index, events[..|events| - 1], base, partition, skipEvery, clock, id)
    requires (id in after <==> id in before) && (id in before ==> after[id] == before[id])
    ensures IsWrittenFor(after, index, events, base, partition, skipEvery, clock, id)
  {
    var front := events[..|events| - 1];
    forall k ensures LastWritten(events, k, id, skipEvery) <==> LastWritten(front, k, id, skipEvery) {
      forall i | 0 <= i < |front| ensures IsSkipped(front, i, skipEvery) <==> IsSkipped(events, i, skipEvery) {
        SkippedInFront(events, i, skipEvery);
      }
    }
  }

  // ----- crashes and redelivery -----

  type Logs = map<int, seq<Event>>

  /** All events of an order are in one partition, because the order id is the message key. */
  ghost predicate KeyedByOrder(logs: Logs) {
    forall p, q, i, j :: p in logs && q in logs && 0 <= i < |logs[p]| && 0 <= j < |logs[q]| && p != q ==>
      logs[p][i].orderId != logs[q][j].orderId
  }

  /**
   The process and the stores it works on. `position` is what the process has been delivered,
   `committed` what it would be redelivered from after a crash. For the statements only: `reached` is
   how far it has ever got, and `skipped` the events below that it has not written.
   */
  datatype State = State(
    index: Index, committed: map<int, nat>, position: map<int, nat>, inFlight: bool,
    reached: map<int, nat>, skipped: set<(int, nat)>)

  datatype Step =
    | WriteNext(partition: int, at: int)
    | SkipNext(partition: int)
    | Commit
    | Crash

  /** A message can be taken when the last one has been committed and the partition has another. */
  predicate CanTake(logs: Logs, s: State, p: int) {
    !s.inFlight && p in logs && p in s.position && p in s.reached && s.position[p] < |logs[p]|
  }

  function AfterStep(logs: Logs, s: State, step: Step): State {
    match step
    case WriteNext(p, at) =>
      if !CanTake(logs, s, p) then s
      else
        var o := s.position[p];
        var e := logs[p][o];
        s.(index := s.index[e.orderId := DocOf(e, p, o, at)],
           position := s.position[p := o + 1], inFlight := true,
           reached := s.reached[p := if o + 1 > s.reached[p] then o + 1 else s.reached[p]],
           skipped := s.skipped - {(p, o)})
    case SkipNext(p) =>
      if !CanTake(logs, s, p) then s
      else
        var o := s.position[p];
        s.(position := s.position[p := o + 1], inFlight := true,
           reached := s.reached[p := if o + 1 > s.reached[p] then o + 1 else s.reached[p]],
           skipped := if o >= s.reached[p] then s.skipped + {(p, o)} else s.skipped)
    case Commit => if s.inFlight then s.(committed := s.position, inFlight := false) else s
    case Crash => s.(position := s.committed, inFlight := false)
  }

  function AfterSteps(logs: Logs, s: State, steps: seq<Step>): State
    decreases |steps|
  {
    if steps == [] then s else AfterSteps(logs, AfterStep(logs, s, steps[0]), steps[1..])
  }

  function Fresh(logs: Logs): State {
    var none := map p | p in logs :: 0;
    State(map[], none, none, false, none, {})
  }

  /** The event at offset o of partition p is below the reached offset and was not skipped. */
  ghost predicate Applied(logs: Logs, s: State, p: int, o: int) {
    p in logs && p in s.reached && 0 <= o < s.reached[p] && o < |logs[p]| && (p, o) !in s.skipped
  }

  /** The document is the one of the last applied event of its order. */
  ghost predicate IsLastApplied(logs: Logs, s: State, id: string, d: Doc) {
    && Applied(logs, s, d.partition, d.offset)
    && logs[d.partition][d.offset].orderId == id
    && d.content == logs[d.partition][d.offset].content
    && forall j :: d.offset < j && Applied(logs, s, d.partition, j) ==> logs[d.partition][j].orderId != id
  }

  /** The index is the fold of the applied events: exactly their orders, each as of its last applied event. */
  ghost predicate IndexIsFold(logs: Logs, s: State) {
    && (forall id :: id in s.index ==> IsLastApplied(logs, s, id, s.index[id]))
    && (forall p, o :: Applied(logs, s, p, o) ==> logs[p][o].orderId in s.index)
  }

  ghost predicate OffsetsInStep(logs: Logs, s: State) {
    && s.committed.Keys == s.position.Keys == s.reached.Keys == logs.Keys
    && (forall p :: p in logs ==> s.committed[p] <= s.reached[p] <= s.committed[p] + 1 && s.reached[p] <= |logs[p]|)
    && (forall p :: p in logs ==> s.committed[p] <= s.position[p] <= s.reached[p])
    && (!s.inFlight ==> s.position == s.committed)
    && (forall p, o :: (p, o) in s.skipped ==> p in s.reached && o < s.reached[p])
  }

  lemma StepKeepsOffsets(logs: Logs, s: State, step: Step)
    requires OffsetsInStep(logs, s)
    ensures OffsetsInStep(logs, AfterStep(logs, s, step))
  {
  }

  /**
   Writing an event, for the first time or again after a crash, keeps the index the fold of the
   applied events: what is redelivered is always the last event reached in its partition.
   */
  lemma WriteKeepsFold(logs: Logs, s: State, p: int, at: int)
    requires KeyedByOrder(logs) && OffsetsInStep(logs, s) && IndexIsFold(logs, s) && CanTake(logs, s, p)
    ensures IndexIsFold(logs, AfterStep(logs, s, WriteNext(p, at)))
  {
    var t := AfterStep(logs, s, WriteNext(p, at));
    var o := s.position[p];
    assert s.reached[p] == o || s.reached[p] == o + 1;
    assert t.reached[p] == o + 1 && Applied(logs, t, p, o);
    forall q, i | (q, i) != (p, o) ensures Applied(logs, t, q, i) <==> Applied(logs, s, q, i) {
    }
    forall id | id in t.index ensures IsLastApplied(logs, t, id, t.index[id]) {
      if id != logs[p][o].orderId {
        assert IsLastApplied(logs, s, id, s.index[id]);
      }
    }
    forall q, i | Applied(logs, t, q, i) ensures logs[q][i].orderId in t.index {
      if (q, i) != (p, o) {
        assert Applied(logs, s, q, i);
      }
    }
  }

  lemma SkipKeepsFold(logs: Logs, s: State, p: int)
    requires OffsetsInStep(logs, s) && IndexIsFold(logs, s)
    ensures IndexIsFold(logs, AfterStep(logs, s, SkipNext(p)))
  {
    var t := AfterStep(logs, s, SkipNext(p));
    forall q, i ensures Applied(logs, t, q, i) <==> Applied(logs, s, q, i) {
    }
    forall id | id in t.index ensures IsLastApplied(logs, t, id, t.index[id]) {
      assert IsLastApplied(logs, s, id, s.index[id]);
    }
  }

  lemma OtherStepsKeepFold(logs: Logs, s: State, step: Step)
    requires IndexIsFold(logs, s) && (step.Commit? || step.Crash?)
    ensures IndexIsFold(logs, AfterStep(logs, s, step))
  {
    var t := AfterStep(logs, s, step);
    forall q, i ensures Applied(logs, t, q, i) <==> Applied(logs, s, q, i) {
    }
    forall id | id in t.index ensures IsLastApplied(logs, t, id, t.index[id]) {
      assert IsLastApplied(logs, s, id, s.index[id]);
    }
  }

  /**
   At-least-once convergence: however deliveries, writes, skips, commits and crashes interleave, each
   partition's reached offset is its committed offset or one more, and the index is the fold of the
   events below it that were not skipped.
   */
  lemma {:induction false} EveryInterleavingConverges(logs: Logs, s: State, steps: seq<Step>)
    requires KeyedByOrder(logs) && OffsetsInStep(logs, s) && IndexIsFold(logs, s)
    ensures OffsetsInStep(logs, AfterSteps(logs, s, steps)) && IndexIsFold(logs, AfterSteps(logs, s, steps))
    decreases |steps|
  {
    if steps != [] {
      var step := steps[0];
      StepKeepsOffsets(logs, s, step);
      match step {
        case WriteNext(p, at) => if CanTake(logs, s, p) { WriteKeepsFold(logs, s, p, at); }
        case SkipNext(p) => SkipKeepsFold(logs, s, p);
        case _ => OtherStepsKeepFold(logs, s, step);
      }
      EveryInterleavingConverges(logs, AfterStep(logs, s, step), steps[1..]);
    }
  }

  lemma FreshIsInStep(logs: Logs)
    ensures OffsetsInStep(logs, Fresh(logs)) && IndexIsFold(logs, Fresh(logs))
  {
  }

  lemma {:induction false} NoSkipsNothingSkipped(logs: Logs, s: State, steps: seq<Step>)
    requires s.skipped == {} && forall i :: 0 <= i < |steps| ==> !steps[i].SkipNext?
    ensures AfterSteps(logs, s, steps).skipped == {}
    decreases |steps|
  {
    if steps != [] {
      NoSkipsNothingSkipped(logs, AfterStep(logs, s, steps[0]), steps[1..]);
    }
  }

  /** Redelivery is harmless: writing an event that was written before changes no document but for its time stamp. */
  lemma RedeliveryChangesNoContent(logs: Logs, s: State, p: int, at: int)
    requires KeyedByOrder(logs) && OffsetsInStep(logs, s) && IndexIsFold(logs, s) && CanTake(logs, s, p)
    requires Applied(logs, s, p, s.position[p])
    ensures var e := logs[p][s.position[p]];
            && e.orderId in s.index
            && AfterStep(logs, s, WriteNext(p, at)).index == s.index[e.orderId := s.index[e.orderId].(indexedAt := at)]
  {
    var o := s.position[p];
    var e := logs[p][o];
    assert e.orderId in s.index;
    var d := s.index[e.orderId];
    assert IsLastApplied(logs, s, e.orderId, d);
    assert d.partition == p && d.offset == o;
  }

  // ----- a process run as steps -----

  /** What a run does with one of its events. */
  ghost function Take(events: seq<Event>, k: nat, partition: int, skipEvery: int, clock: nat -> int): Step
    requires k < |events|
  {
    if IsSkipped(events, k, skipEvery) then SkipNext(partition) else WriteNext(partition, clock(k))
  }

  ghost function Takes(events: seq<Event>, partition: int, skipEvery: int, clock: nat -> int): seq<Step> {
    seq(|events|, k requires 0 <= k < |events| => Take(events, k, partition, skipEvery, clock))
  }

  /** The calls of the loop: each event is written or skipped, and then committed. */
  ghost function Committed(takes: seq<Step>): seq<Step> {
    if takes == [] then [] else Committed(takes[..|takes| - 1]) + [takes[|takes| - 1], Commit]
  }

  lemma {:induction false} AfterMoreSteps(logs: Logs, s: State, steps: seq<Step>, more: seq<Step>)
    ensures AfterSteps(logs, s, steps + more) == AfterSteps(logs, AfterSteps(logs, s, steps), more)
    decreases |steps|
  {
    if steps == [] {
      assert steps + more == more;
    } else {
      AfterMoreSteps(logs, AfterStep(logs, s, steps[0]), steps[1..], more);
      assert (steps + more)[1..] == steps[1..] + more;
    }
  }

  /** Between two messages: everything delivered has been committed. */
  ghost predicate Between(logs: Logs, s: State) {
    !s.inFlight && s.position == s.committed && logs.Keys <= s.position.Keys && logs.Keys <= s.reached.Keys
  }

  /** One turn of the loop. */
  lemma OneMessage(logs: Logs, t: State, p: int, take: Step)
    requires Between(logs, t) && p in logs && t.committed[p] < |logs[p]|
    requires take == SkipNext(p) || (take.WriteNext? && take.partition == p)
    ensures var u, o := AfterSteps(logs, t, [take, Commit]), t.committed[p];
            var e := logs[p][o];
            && u.index == (if take.SkipNext? then t.index else t.index[e.orderId := DocOf(e, p, o, take.at)])
            && u.committed == t.committed[p := o + 1] && Between(logs, u)
  {
    var next := AfterStep(logs, t, take);
    assert [take, Commit][1..] == [Commit] && [Commit][1..] == [];
    assert AfterSteps(logs, next, [Commit]) == AfterSteps(logs, AfterStep(logs, next, Commit), []);
  }

  /** The index after the takes of successive events of a log. */
  ghost function IndexAfter(index: Index, log: seq<Event>, start: nat, takes: seq<Step>): Index
    requires start + |takes| <= |log|
  {
    if takes == [] then index
    else
      var n := |takes| - 1;
      var before := IndexAfter(index, log, start, takes[..n]);
      if !takes[n].WriteNext? then before
      else
        before[log[start + n].orderId := DocOf(log[start + n], takes[n].partition, start + n, takes[n].at)]
  }

  lemma {:induction false} TakesAsSteps(logs: Logs, s: State, p: int, takes: seq<Step>)
    requires Between(logs, s) && p in logs && s.committed[p] + |takes| <= |logs[p]|
    requires forall i :: 0 <= i < |takes| ==>
               takes[i] == SkipNext(p) || (takes[i].WriteNext? && takes[i].partition == p)
    ensures var t := AfterSteps(logs, s, Committed(takes));
            && t.index == IndexAfter(s.index, logs[p], s.committed[p], takes)
            && t.committed == s.committed[p := s.committed[p] + |takes|] && Between(logs, t)
  {
    if takes == [] {
      assert s.committed[p := s.committed[p]] == s.committed;
    } else {
      var front, last := takes[..|takes| - 1], takes[|takes| - 1];
      TakesAsSteps(logs, s, p, front);
      AfterMoreSteps(logs, s, Committed(front), [last, Commit]);
      OneMessage(logs, AfterSteps(logs, s, Committed(front)), p, last);
    }
  }

  /** The takes of a run write what the run writes. */
  lemma {:induction false} TakesWrite(
    index: Index, log: seq<Event>, start: nat, events: seq<Event>, partition: int, skipEvery: int, clock: nat -> int)
    requires start + |events| <= |log| && events == log[start..start + |events|]
    ensures IndexAfter(index, log, start, Takes(events, partition, skipEvery, clock))
            == Written(index, events, start, partition, skipEvery, clock)
  {
    if events != [] {
      var n := |events| - 1;
      TakesWrite(index, log, start, events[..n], partition, skipEvery, clock);
      TakesOfFront(events, partition, skipEvery, clock);
      assert events[n] == log[start + n];
    }
  }

  lemma TakesOfFront(events: seq<Event>, partition: int, skipEvery: int, clock: nat -> int)
    requires events != []
    ensures var n := |events| - 1;
            Takes(events, partition, skipEvery, clock)[..n] == Takes(events[..n], partition, skipEvery, clock)
  {
    var n := |events| - 1;
    forall i | 0 <= i < n
      ensures Take(events, i, partition, skipEvery, clock) == Take(events[..n], i, partition, skipEvery, clock)
    {
      SkippedInFront(events, i, skipEvery);
    }
  }

  /**
   A process run that ends normally is one of the interleavings: started between two messages, it leaves
   the index and the committed offset that its steps leave. So it keeps the index the fold of the applied
   events, also when it starts over after a crash.
   */
  lemma RunIsInterleaving(logs: Logs, s: State, end: nat, partition: int, skipEvery: int, clock: nat -> int)
    requires OffsetsInStep(logs, s) && !s.inFlight && partition in logs
    requires s.committed[partition] <= end <= |logs[partition]|
    ensures var start := s.committed[partition];
            var events := logs[partition][start..end];
            var t := AfterSteps(logs, s, Committed(Takes(events, partition, skipEvery, clock)));
            && t.index == Written(s.index, events, start, partition, skipEvery, clock)
            && t.committed == s.committed[partition := end] && !t.inFlight
            && (KeyedByOrder(logs) && IndexIsFold(logs, s) ==> OffsetsInStep(logs, t) && IndexIsFold(logs, t))
  {
    var start := s.committed[partition];
    var events := logs[partition][start..end];
    var takes := Takes(events, partition, skipEvery, clock);
    TakesAsSteps(logs, s, partition, takes);
    TakesWrite(s.index, logs[partition], start, events, partition, skipEvery, clock);
    if KeyedByOrder(logs) && IndexIsFold(logs, s) {
      EveryInterleavingConverges(logs, s, Committed(takes));
    }
  }
}
