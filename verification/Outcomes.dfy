/**
 What one reconcile comes to, told by what is in the cluster: which Job is there afterwards, what the
 status shows, and when the next reconcile is asked for. The cases are exhaustive, and their terms are
 the fields of the resources; how the reconcile decides does not appear in them.
 */
module Outcomes {
  import opened Common
  import opened Schedule
  import opened RepairPolicy
  import opened Reconciler

  // ----- the run and its reports -----

  ghost predicate HasRun(c: Cluster) { !c.spec.checkInterval.Malformed? }

  ghost predicate IsScheduled(c: Cluster) { c.spec.checkInterval.Present? && c.spec.checkInterval.value > 0 }

  /** The end of the slot the clock is in, in seconds. */
  ghost function SlotEnd(c: Cluster): int
    requires IsScheduled(c)
  {
    (c.now / 1_000_000_000 / c.spec.checkInterval.value + 1) * c.spec.checkInterval.value
  }

  ghost function RunId(c: Cluster): string
    requires HasRun(c)
  {
    if IsScheduled(c) then Text(Slot(c.spec.generation, c.now / 1_000_000_000 / c.spec.checkInterval.value))
    else Text(OneShot(c.spec.generation))
  }

  /** The next reconcile is at the end of the slot, if there are slots. */
  ghost predicate AtSlotEnd(c: Cluster, r: Return) {
    if IsScheduled(c) then r.Done? && r.requeueAfter == Some(SlotEnd(c) - c.now / 1_000_000_000)
    else r == Done(None)
  }

  /** One of the report maps holds the status as the run's report: of this generation and this check. */
  ghost predicate Publishes(reports: map<string, Report>, c: Cluster, s: Status)
    requires HasRun(c)
  {
    && RunId(c) in reports && reports[RunId(c)] == Payload(s)
    && s.observedGeneration == Some(c.spec.generation) && s.checkID == Some(RunId(c))
  }

  ghost predicate Garbled(reports: map<string, Report>, c: Cluster)
    requires HasRun(c)
  {
    RunId(c) in reports && reports[RunId(c)] == Unreadable
  }

  ghost predicate Silent(reports: map<string, Report>, c: Cluster)
    requires HasRun(c)
  {
    !Garbled(reports, c) && forall s :: !Publishes(reports, c, s)
  }

  /** The report with the schedule filled in. */
  ghost predicate IsDated(c: Cluster, s: Status, t: Status) {
    && t == s.(checkIntervalSeconds := t.checkIntervalSeconds, nextCheckAfter := t.nextCheckAfter)
    && (IsScheduled(c) ==>
          t.checkIntervalSeconds == Some(c.spec.checkInterval.value) && t.nextCheckAfter == Some(SlotEnd(c)))
    && (!IsScheduled(c) ==> t == s)
  }

  /** A status of the operator's own: nothing in it comes from a report. */
  ghost predicate IsOwn(
    c: Cluster, s: Option<Status>, phase: string, checkStatus: string, drift: int, examples: int,
    reason: Option<string>, evidence: Evidence)
    requires HasRun(c)
  {
    && s.Some?
    && s.value.phase == Some(phase) && s.value.checkStatus == Some(checkStatus) && s.value.healthy == Some(false)
    && s.value.driftCount == Some(drift) && s.value.counterexampleCount == Some(examples)
    && s.value.reason == reason && s.value.repairAction == None
    && s.value.guarantee == Some(c.spec.guarantee)
    && s.value.observedGeneration == Some(c.spec.generation) && s.value.checkID == Some(RunId(c))
    && s.value.lastCheckedAt == Some(c.now / 1_000_000_000) && s.value.reportRef == Some(evidence)
    && s.value.checkIntervalSeconds == (if IsScheduled(c) then Some(c.spec.checkInterval.value) else None)
    && s.value.nextCheckAfter == (if IsScheduled(c) then Some(SlotEnd(c)) else None)
  }

  lemma TheRun(c: Cluster)
    ensures HasRun(c) <==> RunOf(c.spec, c.now).Some?
    ensures HasRun(c) ==>
              var run := RunOf(c.spec, c.now).value;
              && Text(run.key) == RunId(c) && run.key.generation == c.spec.generation
              && (run.Scheduled() <==> IsScheduled(c))
              && AtSlotEnd(c, Done(RequeueFor(run)))
              && (IsScheduled(c) ==>
                    run.interval == c.spec.checkInterval.value && Unix(c.now) + run.requeue == SlotEnd(c))
  {
    if IsScheduled(c) {
      RequeueWithinInterval(c.spec.generation, c.spec.checkInterval.value, c.now);
    }
  }

  lemma TheFinding(reports: map<string, Report>, c: Cluster)
    requires HasRun(c)
    ensures RunOf(c.spec, c.now).Some?
    ensures var found := ReadReport(reports, c.spec, RunOf(c.spec, c.now).value, c.now, false);
            && (found.Broken? <==> Garbled(reports, c))
            && (found.NotFound? <==> Silent(reports, c))
            && (found.Found? ==> exists s :: Publishes(reports, c, s))
            && forall s :: Publishes(reports, c, s) ==> found.Found? && IsDated(c, s, found.status)
  {
    TheRun(c);
    var found := ReadReport(reports, c.spec, RunOf(c.spec, c.now).value, c.now, false);
    if found.Found? {
      assert Publishes(reports, c, reports[RunId(c)].status);
    }
  }

  lemma LifecycleIsOwn(
    c: Cluster, phase: string, checkStatus: string, drift: int, examples: int, reason: Option<string>,
    evidence: Evidence)
    requires HasRun(c)
    ensures RunOf(c.spec, c.now).Some?
    ensures var run := RunOf(c.spec, c.now).value;
            var s := Lifecycle(c.spec, c.now, run, phase, checkStatus, drift, examples, reason, evidence);
            IsOwn(c, Some(s), phase, checkStatus, drift, examples, reason, evidence)
  {
    TheRun(c);
  }

  // ----- no report yet: the check -----

  /** The status shows the verdict of an earlier check. */
  ghost predicate ShowsVerdict(c: Cluster) {
    c.status.Some? && c.status.value.phase in {Some("Healthy"), Some("DriftDetected")}
  }

  /**
   A run without a report is checked: its checker Job is there afterwards, whatever the status shows. A
   verdict stays visible until the Job has ended without a report; otherwise the status says how the
   Job is doing.
   */
  lemma CheckIsUnderWay(c: Cluster)
    requires HasRun(c) && Silent(c.repairReports, c) && Silent(c.reports, c)
    ensures var (c', r) := Reconciled(c, NO_FAULTS);
            var id := RunId(c);
            && c' == c.(status := c'.status, checkerJobs := c'.checkerJobs)
            && id in c'.checkerJobs
            && c'.checkerJobs == (if id in c.checkerJobs then c.checkerJobs else c.checkerJobs[id := Running])
            && match c'.checkerJobs[id]
               case Running =>
                 && r == Done(Some(5))
                 && (ShowsVerdict(c) ==> c'.status == c.status)
                 && (!ShowsVerdict(c) ==> IsOwn(c, c'.status, "Unknown", "partial", 0, 0, None, CheckerJob(id)))
               case Complete =>
                 && AtSlotEnd(c, r)
                 && IsOwn(c, c'.status, "CheckFailed", "failed", 0, 1,
                          Some("checker job completed without publishing a valid status report"), CheckerJob(id))
               case Failed(timedOut, reason) =>
                 && AtSlotEnd(c, r)
                 && IsOwn(c, c'.status, "CheckFailed", if timedOut then "timedOut" else "failed", 0, 1,
                          Some(reason), CheckerJob(id))
  {
    TheRun(c);
    var run, id := RunOf(c.spec, c.now).value, RunId(c);
    assert Decide(c, NO_FAULTS) == DecideChecker(c, NO_FAULTS, run) by {
      TheFinding(c.repairReports, c);
      TheFinding(c.reports, c);
    }
    if id !in c.checkerJobs || c.checkerJobs[id].Running? {
      LifecycleIsOwn(c, "Unknown", "partial", 0, 0, None, CheckerJob(id));
    } else if c.checkerJobs[id].Complete? {
      LifecycleIsOwn(c, "CheckFailed", "failed", 0, 1, Some(NO_CHECK_REPORT), CheckerJob(id));
    } else {
      var outcome := if c.checkerJobs[id].timedOut then "timedOut" else "failed";
      LifecycleIsOwn(c, "CheckFailed", outcome, 0, 1, Some(c.checkerJobs[id].explanation), CheckerJob(id));
    }
  }

  // ----- drift: the repair -----

  /** The policy that decides, by its place in the list: those before it are passed over. */
  ghost predicate Decides(c: Cluster, j: int) {
    0 <= j < |c.policies| && forall k :: 0 <= k < j ==> PassedOver(c.policies[k], c.spec.name)
  }

  ghost predicate Granting(c: Cluster, j: int) {
    Decides(c, j) && exists i, mode, env :: GrantsBy(c.policies[j], c.spec.name, i, mode, env)
  }

  ghost predicate NoneGrants(c: Cluster) {
    forall k :: 0 <= k < |c.policies| ==> PassedOver(c.policies[k], c.spec.name)
  }

  lemma ThePolicy(c: Cluster, j: int)
    requires Granting(c, j)
    ensures ChosenPolicy(c.policies, c.spec.name) == Ok(Some(c.policies[j])) && Allows(c.policies[j], c.spec.name)
    ensures var mode := AutoMode(c.policies[j]).value.value;
            exists i :: GrantsBy(c.policies[j], c.spec.name, i, mode, RepairEnv(c.policies[j], mode))
  {
    var name := c.spec.name;
    var j' := FirstGrantingPolicy(c.policies, name);
    GrantingIsNeither(c.policies[j], name);
    assert j' <= j;
    if j' < j {
      assert PassedOver(c.policies[j'], name);
      ChoiceIsNotPassedOver(c.policies, name, j');
    }
    ChoiceAt(c.policies, name, j);
  }

  lemma GrantingIsNeither(p: Policy, name: string)
    requires exists i, mode, env :: GrantsBy(p, name, i, mode, env)
    ensures !PassedOver(p, name) && !WrongTyped(p, name)
  {
    var i, mode, env :| GrantsBy(p, name, i, mode, env);
    assert Starts(p.actions.value[i], p.unsafeReindex, mode);
  }

  lemma ChoiceIsNotPassedOver(policies: seq<Policy>, name: string, j: int)
    requires IsChoice(policies, name, Choice(policies, name), j) && j < |policies|
    ensures !PassedOver(policies[j], name)
  {
    if Choice(policies, name).Ok? {
      GrantingIsNeither(policies[j], name);
    }
  }

  lemma ChoiceAt(policies: seq<Policy>, name: string, j: int)
    requires IsChoice(policies, name, Choice(policies, name), j) && j < |policies|
    requires !WrongTyped(policies[j], name)
    ensures ChosenPolicy(policies, name) == Ok(Some(policies[j])) && Allows(policies[j], name)
    ensures var mode := AutoMode(policies[j]).value.value;
            exists i :: GrantsBy(policies[j], name, i, mode, RepairEnv(policies[j], mode))
  {
  }

  lemma NoPolicy(c: Cluster)
    requires NoneGrants(c)
    ensures ChosenPolicy(c.policies, c.spec.name) == Ok(None)
  {
    var j := FirstGrantingPolicy(c.policies, c.spec.name);
  }

  lemma UnreadablePolicy(c: Cluster, j: int)
    requires Decides(c, j) && WrongTyped(c.policies[j], c.spec.name)
    ensures ChosenPolicy(c.policies, c.spec.name).Err?
  {
    var j' := FirstGrantingPolicy(c.policies, c.spec.name);
    assert !PassedOver(c.policies[j], c.spec.name);
  }

  /** The run's drift is waiting for a repair: reported, and not answered by a repair report. */
  ghost predicate AwaitsRepair(c: Cluster, drift: Status) {
    && HasRun(c) && Silent(c.repairReports, c)
    && Publishes(c.reports, c, drift) && drift.phase == Some("DriftDetected")
  }

  /**
   Reported drift is repaired if a policy grants it: the run's repair Job is there afterwards, a new one
   with the mode and settings of the granting policy, and the status says how the repair is doing.
   */
  lemma RepairIsUnderWay(c: Cluster, drift: Status, j: int)
    requires AwaitsRepair(c, drift) && Granting(c, j)
    ensures var (c', r) := Reconciled(c, NO_FAULTS);
            var id, count := RunId(c), if drift.driftCount.Some? then drift.driftCount.value else 0;
            && c' == c.(status := c'.status, repairJobs := c'.repairJobs)
            && id in c'.repairJobs
            && (id in c.repairJobs ==> c'.repairJobs == c.repairJobs)
            && (id !in c.repairJobs ==>
                  var job := c'.repairJobs[id];
                  && c'.repairJobs == c.repairJobs[id := job] && job.state == Running
                  && exists i :: GrantsBy(c.policies[j], c.spec.name, i, job.mode, job.env))
            && ShowsRepair(c, c'.status, r, count, c'.repairJobs[id].state)
  {
    TheRun(c);
    ThePolicy(c, j);
    DriftIsDecided(c, drift, j);
    var count := if drift.driftCount.Some? then drift.driftCount.value else 0;
    ProgressIsShown(c, count, if RunId(c) in c.repairJobs then c.repairJobs[RunId(c)].state else Running);
  }

  /** What the status and the return value say about a repair whose Job is in the given state. */
  ghost predicate ShowsRepair(c: Cluster, s: Option<Status>, r: Return, count: int, state: JobState)
    requires HasRun(c)
  {
    match state
    case Running =>
      && r == Done(Some(5))
      && IsOwn(c, s, "Repairing", "partial", count, count, None, RepairJob(RunId(c)))
    case Complete =>
      && r == Done(None)
      && IsOwn(c, s, "RepairFailed", "failed", count, count,
               Some("repair job completed without publishing a valid status report"), RepairJob(RunId(c)))
    case Failed(timedOut, reason) =>
      && r == Done(None)
      && IsOwn(c, s, "RepairFailed", if timedOut then "timedOut" else "failed", count, count, Some(reason),
               RepairJob(RunId(c)))
  }

  lemma ProgressIsShown(c: Cluster, count: int, state: JobState)
    requires HasRun(c)
    ensures RunOf(c.spec, c.now).Some?
    ensures var d := RepairProgress(c.spec, c.now, RunOf(c.spec, c.now).value, count, state);
            d.Write? && ShowsRepair(c, Some(d.status), Done(d.after), count, state)
  {
    TheRun(c);
    match state {
      case Running =>
        LifecycleIsOwn(c, "Repairing", "partial", count, count, None, RepairJob(RunId(c)));
      case Complete =>
        LifecycleIsOwn(c, "RepairFailed", "failed", count, count, Some(NO_REPAIR_REPORT), RepairJob(RunId(c)));
      case Failed(timedOut, reason) =>
        var outcome := if timedOut then "timedOut" else "failed";
        LifecycleIsOwn(c, "RepairFailed", outcome, count, count, Some(reason), RepairJob(RunId(c)));
    }
  }

  lemma DriftIsDecided(c: Cluster, drift: Status, j: int)
    requires AwaitsRepair(c, drift) && RunOf(c.spec, c.now).Some?
    requires 0 <= j < |c.policies|
    requires ChosenPolicy(c.policies, c.spec.name) == Ok(Some(c.policies[j])) && Allows(c.policies[j], c.spec.name)
    ensures var run := RunOf(c.spec, c.now).value;
            var found := ReadReport(c.reports, c.spec, run, c.now, false);
            && found.Found? && found.status.driftCount == drift.driftCount
            && Some(Decide(c, NO_FAULTS)) == DecideRepair(c, NO_FAULTS, run, found.status)
  {
    TheFinding(c.repairReports, c);
    TheFinding(c.reports, c);
  }

  // ----- a report to show -----

  /** The report the run ends with: of a repair, or of a check whose drift, if any, no policy answers. */
  ghost predicate Concludes(c: Cluster, s: Status) {
    && HasRun(c)
    && (|| Publishes(c.repairReports, c, s)
        || (Silent(c.repairReports, c) && Publishes(c.reports, c, s)
            && (s.phase == Some("DriftDetected") ==> NoneGrants(c))))
  }

  /** The shown status says the same as the report, about the same generation. */
  ghost predicate SaysTheSame(s: Status, t: Status) {
    && s.phase == t.phase && s.healthy == t.healthy && s.checkStatus == t.checkStatus
    && s.driftCount == t.driftCount && s.counterexampleCount == t.counterexampleCount
    && s.guarantee == t.guarantee && s.reason == t.reason && s.repairAction == t.repairAction
    && s.observedGeneration == t.observedGeneration && s.checkIntervalSeconds == t.checkIntervalSeconds
  }

  /** It is shown, field by field, unless what is shown already says the same; no Job is touched. */
  lemma ReportIsShown(c: Cluster, s: Status)
    requires Concludes(c, s)
    ensures var (c', r) := Reconciled(c, NO_FAULTS);
            && AtSlotEnd(c, r)
            && c' == c.(status := c'.status)
            && exists t :: IsDated(c, s, t)
                 && c'.status == if c.status.Some? && SaysTheSame(c.status.value, t) then c.status else Some(t)
  {
    TheRun(c);
    TheFinding(c.repairReports, c);
    TheFinding(c.reports, c);
    if s.phase == Some("DriftDetected") && !Publishes(c.repairReports, c, s) {
      NoPolicy(c);
    }
  }

  // ----- nothing to go by -----

  /** What a reconcile has to read, and cannot. */
  ghost predicate Blocked(c: Cluster) {
    || !HasRun(c)
    || Garbled(c.repairReports, c)
    || (Silent(c.repairReports, c)
        && (|| Garbled(c.reports, c)
            || exists drift, j :: AwaitsRepair(c, drift) && Decides(c, j) && WrongTyped(c.policies[j], c.spec.name)))
  }

  lemma BlockedChangesNothing(c: Cluster, f: Faults)
    requires Blocked(c)
    ensures Reconciled(c, f) == (c, Error)
  {
    TheRun(c);
    if HasRun(c) {
      TheFinding(c.repairReports, c);
      TheFinding(c.reports, c);
      if !Garbled(c.repairReports, c) && !Garbled(c.reports, c) {
        var drift, j :| AwaitsRepair(c, drift) && Decides(c, j) && WrongTyped(c.policies[j], c.spec.name);
        UnreadablePolicy(c, j);
      }
    }
  }

  /** There is no other case. */
  lemma EveryCase(c: Cluster)
    ensures || Blocked(c)
            || (Silent(c.repairReports, c) && Silent(c.reports, c))
            || (exists drift, j :: AwaitsRepair(c, drift) && Granting(c, j))
            || (exists s :: Concludes(c, s))
  {
    if HasRun(c) && !Garbled(c.repairReports, c) && Silent(c.repairReports, c) && !Silent(c.reports, c)
       && !Garbled(c.reports, c) {
      var s :| Publishes(c.reports, c, s);
      var j := FirstGrantingPolicy(c.policies, c.spec.name);
      if s.phase == Some("DriftDetected") {
        assert AwaitsRepair(c, s);
        if j == |c.policies| {
          assert Concludes(c, s);
        } else {
          assert Decides(c, j);
          if !WrongTyped(c.policies[j], c.spec.name) {
            ChoiceAt(c.policies, c.spec.name, j);
            assert Granting(c, j);
          }
        }
      } else {
        assert Concludes(c, s);
      }
    } else if HasRun(c) && !Garbled(c.repairReports, c) && !Silent(c.repairReports, c) {
      var s :| Publishes(c.repairReports, c, s);
      assert Concludes(c, s);
    }
  }

  // ----- calls that fail -----

  /** The calls a reconcile makes before it writes anything: it ends with an error if one of them fails. */
  ghost predicate ReadsFail(c: Cluster, f: Faults)
    requires !Blocked(c)
  {
    || f.getRepairReport
    || (Silent(c.repairReports, c)
        && (|| f.getReport
            || (Silent(c.reports, c)
                && (f.rbac || f.getJob
                    || (RunId(c) !in c.checkerJobs && (f.resolveEnv || f.buildJob || f.create))))
            || exists drift :: AwaitsRepair(c, drift)
                 && (f.listPolicies
                     || (!NoneGrants(c)
                         && (f.rbac || f.getJob
                             || (RunId(c) !in c.repairJobs && (f.resolveEnv || f.buildJob || f.create)))))))
  }

  /**
   A reconcile in which an earlier call fails changes nothing. One in which only writing the status
   fails does the rest, and says so if the status had to change; any other does what it would have done
   undisturbed.
   */
  lemma FailuresAreClean(c: Cluster, f: Faults)
    requires !Blocked(c)
    ensures var (c', r) := Reconciled(c, f);
            var (d, s) := Reconciled(c, NO_FAULTS);
            && s.Done?
            && (ReadsFail(c, f) ==> c' == c && r == Error)
            && (!ReadsFail(c, f) ==>
                  && c' == (if f.patch then d.(status := c.status) else d)
                  && (r == s || (f.patch && r == Error))
                  && (f.patch && d.status != c.status ==> r == Error))
  {
    TheRun(c);
    DecisionAndFaults(c, f);
    CarriedDespiteFaults(c, Decide(c, NO_FAULTS), f);
  }

  lemma CarriedDespiteFaults(c: Cluster, d: Decision, f: Faults)
    requires !d.Abort? && RunOf(c.spec, c.now).Some?
    ensures var (c', r) := Carry(c, d, f);
            var (undisturbed, s) := Carry(c, d, NO_FAULTS);
            && s.Done?
            && c' == (if f.patch then undisturbed.(status := c.status) else undisturbed)
            && (r == s || (f.patch && r == Error))
            && (f.patch && undisturbed.status != c.status ==> r == Error)
  {
  }

  lemma DecisionAndFaults(c: Cluster, f: Faults)
    requires !Blocked(c)
    ensures !Decide(c, NO_FAULTS).Abort?
    ensures Decide(c, f) == if ReadsFail(c, f) then Abort else Decide(c, NO_FAULTS)
  {
    TheRun(c);
    if Silent(c.repairReports, c) && !Silent(c.reports, c) {
      var s :| Publishes(c.reports, c, s);
      ReportAndFaults(c, f, s);
    } else {
      TheFinding(c.repairReports, c);
      TheFinding(c.reports, c);
    }
  }

  lemma ReportAndFaults(c: Cluster, f: Faults, s: Status)
    requires !Blocked(c) && Silent(c.repairReports, c) && Publishes(c.reports, c, s)
    ensures !Decide(c, NO_FAULTS).Abort?
    ensures Decide(c, f) == if ReadsFail(c, f) then Abort else Decide(c, NO_FAULTS)
  {
    TheRun(c);
    TheFinding(c.repairReports, c);
    TheFinding(c.reports, c);
    assert forall t :: Publishes(c.reports, c, t) ==> t == s;
    assert !Silent(c.reports, c);
    if s.phase == Some("DriftDetected") {
      assert AwaitsRepair(c, s);
      PolicyOrNone(c, s);
    } else {
      assert forall t :: !AwaitsRepair(c, t);
    }
  }

  lemma PolicyOrNone(c: Cluster, drift: Status)
    requires !Blocked(c) && AwaitsRepair(c, drift)
    ensures ChosenPolicy(c.policies, c.spec.name).Ok?
    ensures ChosenPolicy(c.policies, c.spec.name).value.None? <==> NoneGrants(c)
  {
    var j := FirstGrantingPolicy(c.policies, c.spec.name);
    if j < |c.policies| {
      assert Decides(c, j);
    }
  }

  /**
   So a reconcile that succeeds, whatever would have failed had it been called, has brought the run
   forward: the check has its Job, or the drift a policy answers has its, or the report is shown.
   */
  lemma SuccessMeansProgress(c: Cluster, f: Faults)
    requires Reconciled(c, f).1.Done?
    ensures !Blocked(c) && Reconciled(c, f) == Reconciled(c, NO_FAULTS)
    ensures Silent(c.repairReports, c) && Silent(c.reports, c) ==> RunId(c) in Reconciled(c, f).0.checkerJobs
    ensures forall drift, j :: AwaitsRepair(c, drift) && Granting(c, j) ==>
              RunId(c) in Reconciled(c, f).0.repairJobs
    ensures forall s :: Concludes(c, s) ==>
              var shown := Reconciled(c, f).0.status;
              && shown.Some? && shown.value.phase == s.phase && shown.value.healthy == s.healthy
              && shown.value.driftCount == s.driftCount
              && shown.value.observedGeneration == Some(c.spec.generation)
  {
    if Blocked(c) {
      BlockedChangesNothing(c, f);
    }
    FailuresAreClean(c, f);
    if Silent(c.repairReports, c) && Silent(c.reports, c) {
      CheckIsUnderWay(c);
    }
    forall drift, j | AwaitsRepair(c, drift) && Granting(c, j) ensures RunId(c) in Reconciled(c, f).0.repairJobs {
      RepairIsUnderWay(c, drift, j);
    }
    forall s | Concludes(c, s)
      ensures var shown := Reconciled(c, f).0.status;
              && shown.Some? && shown.value.phase == s.phase && shown.value.healthy == s.healthy
              && shown.value.driftCount == s.driftCount
              && shown.value.observedGeneration == Some(c.spec.generation)
    {
      ReportIsShown(c, s);
    }
  }
}
