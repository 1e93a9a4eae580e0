/** Check runs: the slots of a scheduled invariant, their requeue delays and their ids (`currentCheckRun`). */
module Schedule {
  import opened Arithmetic
  import opened Common
  import opened Decimal

  const NANOS := 1_000_000_000

  /** Which check a reconcile works for: the only one of a generation, or one per interval. */
  datatype RunKey = OneShot(generation: nat) | Slot(generation: nat, slot: nat)

  /** A run with the check interval in seconds and the seconds until the next one is due. */
  datatype CheckRun = CheckRun(key: RunKey, interval: nat, requeue: nat) {
    predicate Scheduled() { key.Slot? }
  }

  /** `Time.Unix()`: the clock, kept in nanoseconds, in whole seconds. */
  function Unix(now: nat): nat { now / NANOS }

  function CurrentRun(generation: nat, interval: Option<int>, now: nat): CheckRun {
    if interval.None? || interval.value <= 0 then CheckRun(OneShot(generation), 0, 0)
    else
      var slot := Unix(now) / interval.value;
      var next := (slot + 1) * interval.value - Unix(now);
      CheckRun(Slot(generation, slot), interval.value, if next <= 0 then interval.value else next)
  }

  /** The run id as it appears in names, arguments and statuses. */
  function Text(key: RunKey): string {
    match key
    case OneShot(g) => "g" + Str(g)
    case Slot(g, t) => "g" + Str(g) + "-t" + Str(t)
  }

  /** A scheduled run asks to be requeued after at least one second and at most one interval. */
  lemma RequeueWithinInterval(generation: nat, interval: int, now: nat)
    requires interval > 0
    ensures var run := CurrentRun(generation, Some(interval), now);
            && 0 < run.requeue <= interval
            && Unix(now) + run.requeue == (run.key.slot + 1) * interval
  {
    var u := Unix(now);
    assert u == (u / interval) * interval + u % interval;
    assert (u / interval + 1) * interval == (u / interval) * interval + interval;
  }

  /** The run of a moment: of the generation, and, with an interval, of the interval the moment lies in. */
  lemma RunOfMoment(generation: nat, interval: Option<int>, now: nat)
    ensures var run := CurrentRun(generation, interval, now);
            && run.key.generation == generation
            && (run.Scheduled() <==> interval.Some? && interval.value > 0)
            && (run.Scheduled() ==>
                  && run.interval == interval.value
                  && run.key.slot * run.interval <= now / 1_000_000_000 < (run.key.slot + 1) * run.interval)
  {
    if interval.Some? && interval.value > 0 {
      var u, i := now / 1_000_000_000, interval.value;
      assert u == (u / i) * i + u % i;
      assert (u / i + 1) * i == (u / i) * i + i;
    }
  }

  const TWO_TO_THE_63 := 0x8000_0000_0000_0000

  /** The value left in a signed 64-bit integer. */
  function Wrapped(x: int): int {
    (x + TWO_TO_THE_63) % (2 * TWO_TO_THE_63) - TWO_TO_THE_63
  }

  /** The delay as the 64-bit arithmetic of `currentCheckRun` computes it, in nanoseconds. */
  function RequeueNanos(interval: int, now: nat): int
    requires interval > 0
  {
    var next := Wrapped(Wrapped(Wrapped((Unix(now) / interval + 1) * interval) - Unix(now)) * NANOS);
    if next <= 0 then Wrapped(interval * NANOS) else next
  }

  /**
   The delay of `CurrentRun` is what the 64-bit arithmetic yields if and only if it fits a
   `time.Duration`, that is, up to about 292 years. The slot's end may overflow; that cancels out.
   */
  lemma RequeueFitsIff(generation: nat, interval: int, now: nat)
    requires 0 < interval < TWO_TO_THE_63 && Unix(now) < TWO_TO_THE_63
    ensures var delay := CurrentRun(generation, Some(interval), now).requeue * NANOS;
            RequeueNanos(interval, now) == delay <==> delay < TWO_TO_THE_63
  {
    var u := Unix(now);
    var due := (u / interval + 1) * interval;
    var requeue := CurrentRun(generation, Some(interval), now).requeue;
    RequeueWithinInterval(generation, interval, now);
    assert due == u + requeue;
    assert Wrapped(due) == due || Wrapped(due) == due - 2 * TWO_TO_THE_63;
    assert Wrapped(Wrapped(due) - u) == requeue;
    if requeue * NANOS < TWO_TO_THE_63 {
      assert Wrapped(requeue * NANOS) == requeue * NANOS;
    }
    WrappedFits(requeue * NANOS);
    WrappedFits(interval * NANOS);
  }

  lemma WrappedFits(x: int)
    ensures -TWO_TO_THE_63 <= Wrapped(x) < TWO_TO_THE_63
  {
  }

  /**
   A requeue that fires `delay` nanoseconds late never falls into the slot that requested it, and it
   falls into exactly the next one if and only if the delay and the sub-second part of the clock at
   the request together stay below the interval: the requested delay counts whole seconds only.
   */
  lemma NextFiring(generation: nat, interval: int, now: nat, delay: nat)
    requires interval > 0
    ensures var run := CurrentRun(generation, Some(interval), now);
            var fired := CurrentRun(generation, Some(interval), now + run.requeue * NANOS + delay);
            && fired.key.slot > run.key.slot
            && (fired.key.slot == run.key.slot + 1 <==> now % NANOS + delay < interval * NANOS)
  {
    var run := CurrentRun(generation, Some(interval), now);
    var slot := run.key.slot;
    RequeueWithinInterval(generation, interval, now);
    var due := (slot + 1) * interval;
    var late := now % NANOS + delay;
    var at := now + run.requeue * NANOS + delay;
    assert now == Unix(now) * NANOS + now % NANOS;
    assert at == due * NANOS + late;
    assert Unix(at) == due + late / NANOS;
    assert (slot + 2) * interval == due + interval;
    assert (slot + 3) * interval == due + 2 * interval;
    if late < interval * NANOS {
      assert late / NANOS < interval;
      QuotientIs(Unix(at), interval, slot + 1);
    } else {
      assert late / NANOS >= interval;
      DivMonotone(due + interval, Unix(at), interval);
      QuotientIs(due + interval, interval, slot + 2);
    }
  }

  /** With a one-second interval, a firing half a second late can skip a slot. */
  lemma LateFiringCanSkipASlot()
    ensures var now, delay := 900_000_000, 500_000_000;
            var run := CurrentRun(1, Some(1), now);
            delay < 1 * NANOS
            && CurrentRun(1, Some(1), now + run.requeue * NANOS + delay).key == Slot(1, run.key.slot + 2)
  {
  }

  lemma SlotsInOrder(generation: nat, interval: int, now: nat, later: nat)
    requires interval > 0 && now <= later
    ensures CurrentRun(generation, Some(interval), now).key.slot
            <= CurrentRun(generation, Some(interval), later).key.slot
  {
    DivMonotone(Unix(now), Unix(later), interval);
  }

  function Head(generation: nat): string { "g" + Str(generation) }

  lemma HeadIsPlain(g: nat)
    ensures Without(Head(g), '-')
  {
    StrValue(g);
  }

  lemma HeadInjective(g: nat, h: nat)
    requires Head(g) == Head(h)
    ensures g == h
  {
    assert Head(g)[1..] == Str(g) && Head(h)[1..] == Str(h);
    StrInjective(g, h);
  }

  lemma SlotText(g: nat, t: nat)
    ensures Text(Slot(g, t)) == Head(g) + ['-'] + ("t" + Str(t))
    ensures Text(Slot(g, t))[|Head(g)|] == '-'
  {
    assert Text(Slot(g, t)) == Head(g) + ("-t" + Str(t));
    assert "-t" + Str(t) == ['-'] + ("t" + Str(t));
  }

  /** Two run ids are the same text only if generation, slot and scheduled-ness are the same. */
  lemma TextInjective(a: RunKey, b: RunKey)
    requires Text(a) == Text(b)
    ensures a == b
  {
    HeadIsPlain(a.generation);
    HeadIsPlain(b.generation);
    if a.Slot? && b.Slot? {
      SlotText(a.generation, a.slot);
      SlotText(b.generation, b.slot);
      SplitAtFirst(Head(a.generation), "t" + Str(a.slot), Head(b.generation), "t" + Str(b.slot), '-');
      assert ("t" + Str(a.slot))[1..] == Str(a.slot) && ("t" + Str(b.slot))[1..] == Str(b.slot);
      StrInjective(a.slot, b.slot);
    } else if a.Slot? {
      SlotText(a.generation, a.slot);
    } else if b.Slot? {
      SlotText(b.generation, b.slot);
    }
    HeadInjective(a.generation, b.generation);
  }
}
