/**
 The job-backed reconcile loop of one Invariant (`reconcileJobBackedInvariant` and what it calls).

 `Decide` says what one reconcile does with the cluster it finds; `Operator.Reconcile` does it call by
 call. `OperatorRuns` lets an environment act between reconciles and proves what holds in every run.
 */
module Reconciler {
  import opened Common
  import opened Schedule
  import opened RepairPolicy

  const HEALTHY := "Healthy"
  const DRIFT_DETECTED := "DriftDetected"
  const UNKNOWN := "Unknown"
  const CHECK_FAILED := "CheckFailed"
  const REPAIRING := "Repairing"
  const REPAIR_FAILED := "RepairFailed"

  const RETRY_SECONDS := 5

  /** Where a status says its evidence is: a Job of the operator, or what a report names. */
  datatype Evidence = CheckerJob(id: string) | RepairJob(id: string) | Stored(text: string)

  /** An Invariant's status, or the `status.json` of a report; a field a payload lacks is `None`. */
  datatype Status = Status(
    phase: Option<string>, healthy: Option<bool>, checkStatus: Option<string>,
    driftCount: Option<int>, counterexampleCount: Option<int>,
    guarantee: Option<string>, reason: Option<string>, repairAction: Option<string>,
    observedGeneration: Option<int>, checkID: Option<string>,
    checkIntervalSeconds: Option<int>, nextCheckAfter: Option<int>,
    lastCheckedAt: Option<int>, reportRef: Option<Evidence>)

  /** A report ConfigMap: without a readable `status.json`, or with one. */
  datatype Report = Unreadable | Payload(status: Status)

  datatype JobState = Running | Complete | Failed(timedOut: bool, explanation: string)

  /** A repair Job and what it was started with. */
  datatype RepairRun = RepairRun(state: JobState, mode: string, env: seq<EnvVar>)

  datatype Spec = Spec(name: string, generation: nat, checkInterval: Field<int>, guarantee: string)

  /** The cluster as one Invariant sees it; reports and Jobs are indexed by run id, the clock is in nanoseconds. */
  datatype Cluster = Cluster(
    spec: Spec, now: nat, status: Option<Status>,
    reports: map<string, Report>, repairReports: map<string, Report>,
    checkerJobs: map<string, JobState>, repairJobs: map<string, RepairRun>,
    policies: seq<Policy>)

  /** Which calls to the API server fail during a reconcile. */
  datatype Faults = Faults(
    getRepairReport: bool, getReport: bool, listPolicies: bool, rbac: bool, getJob: bool,
    resolveEnv: bool, buildJob: bool, create: bool, patch: bool)

  const NO_FAULTS := Faults(false, false, false, false, false, false, false, false, false)

  /** How a reconcile returns: with an error, or with the seconds after which to run again, if any. */
  datatype Return = Error | Done(requeueAfter: Option<nat>)

  // ----- statuses -----

  function RunOf(spec: Spec, now: nat): Option<CheckRun> {
    match spec.checkInterval
    case Malformed => None
    case Absent => Some(CurrentRun(spec.generation, None, now))
    case Present(i) => Some(CurrentRun(spec.generation, Some(i), now))
  }

  function RequeueFor(run: CheckRun): Option<nat> {
    if run.Scheduled() then Some(run.requeue) else None
  }

  /** `jobLifecycleStatus`: the statuses the operator itself writes. */
  function Lifecycle(
    spec: Spec, now: nat, run: CheckRun, phase: string, checkStatus: string,
    driftCount: int, counterexamples: int, reason: Option<string>, evidence: Evidence): Status
  {
    Status(
      Some(phase), Some(false), Some(checkStatus), Some(driftCount), Some(counterexamples),
      Some(spec.guarantee), reason, None, Some(spec.generation), Some(Text(run.key)),
      if run.Scheduled() then Some(run.interval) else None,
      if run.Scheduled() then Some(Unix(now) + run.requeue) else None,
      Some(Unix(now)), Some(evidence))
  }

  function CheckerRunning(spec: Spec, now: nat, run: CheckRun): Status {
    Lifecycle(spec, now, run, UNKNOWN, "partial", 0, 0, None, CheckerJob(Text(run.key)))
  }

  function CheckerFailed(spec: Spec, now: nat, run: CheckRun, timedOut: bool, reason: string): Status {
    var outcome := if timedOut then "timedOut" else "failed";
    Lifecycle(spec, now, run, CHECK_FAILED, outcome, 0, 1, Some(reason), CheckerJob(Text(run.key)))
  }

  function RepairRunning(spec: Spec, now: nat, run: CheckRun, drift: int): Status {
    Lifecycle(spec, now, run, REPAIRING, "partial", drift, drift, None, RepairJob(Text(run.key)))
  }

  function RepairFailed(spec: Spec, now: nat, run: CheckRun, drift: int, timedOut: bool, reason: string): Status {
    var outcome := if timedOut then "timedOut" else "failed";
    Lifecycle(spec, now, run, REPAIR_FAILED, outcome, drift, drift, Some(reason), RepairJob(Text(run.key)))
  }

  /** `enrichScheduledStatus` */
  function Enriched(s: Status, now: nat, run: CheckRun): Status {
    var s' := s.(checkID := Some(Text(run.key)));
    if run.Scheduled()
    then s'.(checkIntervalSeconds := Some(run.interval), nextCheckAfter := Some(Unix(now) + run.requeue))
    else s'
  }

  /** `reportStatusAlreadyApplied`: equal in every field that says what was found, not when or where. */
  predicate SameFinding(s: Status, t: Status) {
    && s.driftCount == t.driftCount && s.counterexampleCount == t.counterexampleCount
    && s.observedGeneration == t.observedGeneration && s.checkIntervalSeconds == t.checkIntervalSeconds
    && s.phase == t.phase && s.checkStatus == t.checkStatus && s.guarantee == t.guarantee
    && s.reason == t.reason && s.repairAction == t.repairAction && s.healthy == t.healthy
  }

  predicate AlreadyApplied(current: Option<Status>, desired: Status) {
    current.Some? && SameFinding(current.value, desired)
  }

  /** `shouldPatchCheckerRunningStatus`: a verdict stays visible while the next check runs. */
  predicate RunningMayShow(current: Option<Status>) {
    current.None? || current.value.phase.None?
    || (current.value.phase.value != HEALTHY && current.value.phase.value != DRIFT_DETECTED)
  }

  /** What looking for a report yields. */
  datatype Finding = Broken | NotFound | Found(status: Status)

  function ReadReport(reports: map<string, Report>, spec: Spec, run: CheckRun, now: nat, unavailable: bool): Finding {
    var id := Text(run.key);
    if unavailable then Broken
    else if id !in reports then NotFound
    else if reports[id].Unreadable? then Broken
    else
      var s := reports[id].status;
      if s.observedGeneration != Some(spec.generation) || s.checkID != Some(id) then NotFound
      else Found(Enriched(s, now, run))
  }

  // ----- what one reconcile does -----

  datatype Decision =
    | Abort
    | Keep(after: Option<nat>)
    | Write(status: Status, after: Option<nat>)
    | StartChecker(shown: Option<Status>)
    | StartRepair(job: RepairRun, status: Status)

  function ApplyReport(c: Cluster, s: Status, run: CheckRun): Decision {
    if AlreadyApplied(c.status, s) then Keep(RequeueFor(run)) else Write(s, RequeueFor(run))
  }

  /** `None` means that no policy allows a repair. */
  function DecideRepair(c: Cluster, f: Faults, run: CheckRun, drift: Status): Option<Decision> {
    var count := if drift.driftCount.Some? then drift.driftCount.value else 0;
    var id := Text(run.key);
    if f.listPolicies then Some(Abort)
    else
      match ChosenPolicy(c.policies, c.spec.name)
      case Err(_) => Some(Abort)
      case Ok(None) => None
      case Ok(Some(policy)) =>
        var mode := AutoMode(policy).value.value;
        if f.rbac || f.getJob then Some(Abort)
        else if id !in c.repairJobs then
          if f.resolveEnv || f.buildJob || f.create then Some(Abort)
          else
            var job := RepairRun(Running, mode, RepairEnv(policy, mode));
            Some(StartRepair(job, RepairRunning(c.spec, c.now, run, count)))
        else Some(RepairProgress(c.spec, c.now, run, count, c.repairJobs[id].state))
  }

  function RepairProgress(spec: Spec, now: nat, run: CheckRun, count: int, state: JobState): Decision {
    match state
    case Failed(timedOut, reason) => Write(RepairFailed(spec, now, run, count, timedOut, reason), None)
    case Complete => Write(RepairFailed(spec, now, run, count, false, NO_REPAIR_REPORT), None)
    case Running => Write(RepairRunning(spec, now, run, count), Some(RETRY_SECONDS))
  }

  const NO_REPAIR_REPORT := "repair job completed without publishing a valid status report"
  const NO_CHECK_REPORT := "checker job completed without publishing a valid status report"

  function DecideChecker(c: Cluster, f: Faults, run: CheckRun): Decision {
    var id := Text(run.key);
    if f.rbac || f.getJob then Abort
    else if id !in c.checkerJobs then
      if f.resolveEnv || f.buildJob || f.create then Abort
      else StartChecker(if RunningMayShow(c.status) then Some(CheckerRunning(c.spec, c.now, run)) else None)
    else
      match c.checkerJobs[id]
      case Failed(timedOut, reason) => Write(CheckerFailed(c.spec, c.now, run, timedOut, reason), RequeueFor(run))
      case Complete => Write(CheckerFailed(c.spec, c.now, run, false, NO_CHECK_REPORT), RequeueFor(run))
      case Running =>
        if RunningMayShow(c.status) then Write(CheckerRunning(c.spec, c.now, run), Some(RETRY_SECONDS))
        else Keep(Some(RETRY_SECONDS))
  }

  function Decide(c: Cluster, f: Faults): Decision {
    match RunOf(c.spec, c.now)
    case None => Abort
    case Some(run) =>
      match ReadReport(c.repairReports, c.spec, run, c.now, f.getRepairReport)
      case Broken => Abort
      case Found(s) => ApplyReport(c, s, run)
      case NotFound =>
        match ReadReport(c.reports, c.spec, run, c.now, f.getReport)
        case Broken => Abort
        case NotFound => DecideChecker(c, f, run)
        case Found(s) =>
          if s.phase == Some(DRIFT_DETECTED) then
            match DecideRepair(c, f, run, s)
            case Some(d) => d
            case None => ApplyReport(c, s, run)
          else ApplyReport(c, s, run)
  }

  function Patched(c: Cluster, s: Status, f: Faults): Cluster {
    if f.patch then c else c.(status := Some(s))
  }

  function AfterPatch(after: Option<nat>, f: Faults): Return {
    if f.patch then Error else Done(after)
  }

  /** The cluster after the decision is carried out, and what the reconcile returns. */
  function Carry(c: Cluster, d: Decision, f: Faults): (Cluster, Return) {
    match d
    case Abort => (c, Error)
    case Keep(after) => (c, Done(after))
    case Write(s, after) => (Patched(c, s, f), AfterPatch(after, f))
    case StartChecker(s) =>
      if RunOf(c.spec, c.now).None? then (c, Error)
      else
        var c' := c.(checkerJobs := c.checkerJobs[Text(RunOf(c.spec, c.now).value.key) := Running]);
        if s.None? then (c', Done(Some(RETRY_SECONDS)))
        else (Patched(c', s.value, f), AfterPatch(Some(RETRY_SECONDS), f))
    case StartRepair(job, s) =>
      if RunOf(c.spec, c.now).None? then (c, Error)
      else
        var c' := c.(repairJobs := c.repairJobs[Text(RunOf(c.spec, c.now).value.key) := job]);
        (Patched(c', s, f), AfterPatch(Some(RETRY_SECONDS), f))
  }

  function Reconciled(c: Cluster, f: Faults): (Cluster, Return) {
    Carry(c, Decide(c, f), f)
  }

  /** The status a decision wants written. */
  function WrittenBy(d: Decision): Option<Status> {
    match d
    case Write(s, _) => Some(s)
    case StartChecker(s) => s
    case StartRepair(_, s) => Some(s)
    case _ => None
  }

  lemma CarriedStatus(c: Cluster, d: Decision, f: Faults)
    ensures var s := Carry(c, d, f).0.status;
            s == c.status || (s.Some? && s == WrittenBy(d))
    ensures Carry(c, d, f).1.Done? && WrittenBy(d).Some? ==> Carry(c, d, f).0.status == WrittenBy(d)
  {
  }

  // ----- the reconciler -----

  class Operator {
    var spec: Spec
    var now: nat
    var status: Option<Status>
    var reports: map<string, Report>
    var repairReports: map<string, Report>
    var checkerJobs: map<string, JobState>
    var repairJobs: map<string, RepairRun>
    var policies: seq<Policy>

    ghost function State(): Cluster
      reads this
    {
      Cluster(spec, now, status, reports, repairReports, checkerJobs, repairJobs, policies)
    }

    constructor (c: Cluster)
      ensures State() == c
    {
      spec, now, status, policies := c.spec, c.now, c.status, c.policies;
      reports, repairReports := c.reports, c.repairReports;
      checkerJobs, repairJobs := c.checkerJobs, c.repairJobs;
    }

    method PatchStatus(s: Status, f: Faults, after: Option<nat>) returns (r: Return)
      modifies this`status
      ensures status == if f.patch then old(status) else Some(s)
      ensures r == AfterPatch(after, f)
    {
      if f.patch {
        return Error;
      }
      status := Some(s);
      r := Done(after);
    }

    method StatusFromReport(reportMaps: map<string, Report>, run: CheckRun, unavailable: bool) returns (r: Finding)
      ensures r == ReadReport(reportMaps, spec, run, now, unavailable)
    {
      if unavailable {
        return Broken;
      }
      var id := Text(run.key);
      if id !in reportMaps {
        return NotFound;
      }
      var report := reportMaps[id];
      if report.Unreadable? {
        return Broken;
      }
      if report.status.observedGeneration != Some(spec.generation) || report.status.checkID != Some(id) {
        return NotFound;
      }
      r := Found(Enriched(report.status, now, run));
    }

    method ApplyReportStatus(s: Status, run: CheckRun, f: Faults) returns (r: Return)
      modifies this`status
      ensures (State(), r) == Carry(old(State()), ApplyReport(old(State()), s, run), f)
    {
      if AlreadyApplied(status, s) {
        return Done(RequeueFor(run));
      }
      r := PatchStatus(s, f, RequeueFor(run));
    }

    /** `handled` is false when no policy allows a repair; then nothing has changed. */
    method ReconcileRepairForDrift(drift: Status, run: CheckRun, f: Faults) returns (r: Return, handled: bool)
      requires spec.name != "" && RunOf(spec, now) == Some(run)
      modifies this`status, this`repairJobs
      ensures handled <==> DecideRepair(old(State()), f, run, drift).Some?
      ensures !handled ==> State() == old(State())
      ensures handled ==> (State(), r) == Carry(old(State()), DecideRepair(old(State()), f, run, drift).value, f)
    {
      r, handled := Error, true;
      if f.listPolicies {
        return;
      }
      var found := FindAutoRepairPolicy(policies, spec.name);
      if found.Err? {
        return;
      }
      if found.value.None? {
        handled := false;
        return;
      }
      var (policy, mode) := found.value.value;
      ghost var decided := DecideRepair(State(), f, run, drift);
      if f.rbac || f.getJob {
        assert decided == Some(Abort);
        return;
      }
      var id := Text(run.key);
      var count := if drift.driftCount.Some? then drift.driftCount.value else 0;
      if id !in repairJobs {
        if f.resolveEnv || f.buildJob || f.create {
          assert decided == Some(Abort);
          return;
        }
        var created := RepairRun(Running, mode, RepairEnv(policy, mode));
        assert decided == Some(StartRepair(created, RepairRunning(spec, now, run, count)));
        repairJobs := repairJobs[id := created];
        r := PatchStatus(RepairRunning(spec, now, run, count), f, Some(RETRY_SECONDS));
        return;
      }
      assert decided == Some(RepairProgress(spec, now, run, count, repairJobs[id].state));
      r := ShowRepair(repairJobs[id].state, count, run, f);
    }

    /** What a repair Job that is there already says about the repair. */
    method ShowRepair(state: JobState, count: int, run: CheckRun, f: Faults) returns (r: Return)
      modifies this`status
      ensures (State(), r) == Carry(old(State()), RepairProgress(spec, now, run, count, state), f)
    {
      if state.Failed? {
        r := PatchStatus(RepairFailed(spec, now, run, count, state.timedOut, state.explanation), f, None);
      } else if state.Complete? {
        r := PatchStatus(RepairFailed(spec, now, run, count, false, NO_REPAIR_REPORT), f, None);
      } else {
        r := PatchStatus(RepairRunning(spec, now, run, count), f, Some(RETRY_SECONDS));
      }
    }

    method ReconcileChecker(run: CheckRun, f: Faults) returns (r: Return)
      requires RunOf(spec, now) == Some(run)
      modifies this`status, this`checkerJobs
      ensures (State(), r) == Carry(old(State()), DecideChecker(old(State()), f, run), f)
    {
      if f.rbac || f.getJob {
        return Error;
      }
      var id := Text(run.key);
      if id !in checkerJobs {
        if f.resolveEnv || f.buildJob || f.create {
          return Error;
        }
        checkerJobs := checkerJobs[id := Running];
        r := Done(Some(RETRY_SECONDS));
        if RunningMayShow(status) {
          r := PatchStatus(CheckerRunning(spec, now, run), f, Some(RETRY_SECONDS));
        }
        return;
      }
      var job := checkerJobs[id];
      if job.Failed? {
        r := PatchStatus(CheckerFailed(spec, now, run, job.timedOut, job.explanation), f, RequeueFor(run));
      } else if job.Complete? {
        r := PatchStatus(CheckerFailed(spec, now, run, false, NO_CHECK_REPORT), f, RequeueFor(run));
      } else {
        r := Done(Some(RETRY_SECONDS));
        if RunningMayShow(status) {
          r := PatchStatus(CheckerRunning(spec, now, run), f, Some(RETRY_SECONDS));
        }
      }
    }

    method Reconcile(f: Faults) returns (r: Return)
      requires spec.name != ""
      modifies this`status, this`checkerJobs, this`repairJobs
      ensures (State(), r) == Reconciled(old(State()), f)
    {
      if spec.checkInterval.Malformed? {
        return Error;
      }
      var run := CurrentRun(
        spec.generation, if spec.checkInterval.Present? then Some(spec.checkInterval.value) else None, now);
      var repaired := StatusFromReport(repairReports, run, f.getRepairReport);
      if repaired.Broken? {
        return Error;
      }
      if repaired.Found? {
        r := ApplyReportStatus(repaired.status, run, f);
        return;
      }
      var checked := StatusFromReport(reports, run, f.getReport);
      if checked.Broken? {
        return Error;
      }
      if checked.Found? {
        if checked.status.phase == Some(DRIFT_DETECTED) {
          var handled;
          r, handled := ReconcileRepairForDrift(checked.status, run, f);
          if handled {
            return;
          }
        }
        r := ApplyReportStatus(checked.status, run, f);
        return;
      }
      r := ReconcileChecker(run, f);
    }
  }

  // ----- one reconcile -----

  /**
   A drift report is never covered up: a reconcile that succeeds, finds no repair report and finds a
   report that drift was detected leaves a status whose phase says that drift was detected, that a
   repair is running, or that it failed.
   */
  lemma DriftIsNeverShownHealthy(c: Cluster, f: Faults)
    requires RunOf(c.spec, c.now).Some?
    requires ReadReport(c.repairReports, c.spec, RunOf(c.spec, c.now).value, c.now, false) == NotFound
    requires ReadReport(c.reports, c.spec, RunOf(c.spec, c.now).value, c.now, false).Found?
    requires ReadReport(c.reports, c.spec, RunOf(c.spec, c.now).value, c.now, false).status.phase
             == Some(DRIFT_DETECTED)
    requires Reconciled(c, f).1.Done?
    ensures var s := Reconciled(c, f).0.status;
            && s.Some? && s.value.observedGeneration == Some(c.spec.generation)
            && s.value.phase in {Some(DRIFT_DETECTED), Some(REPAIRING), Some(REPAIR_FAILED)}
  {
    var run := RunOf(c.spec, c.now).value;
    var drift := ReadReport(c.reports, c.spec, run, c.now, false).status;
    assert !f.getRepairReport && !f.getReport;
    var repair := DecideRepair(c, f, run, drift);
    if repair.Some? {
      RepairStatuses(c, f, run, drift);
      CarriedStatus(c, repair.value, f);
    } else {
      CarriedStatus(c, ApplyReport(c, drift, run), f);
    }
  }

  lemma RepairStatuses(c: Cluster, f: Faults, run: CheckRun, drift: Status)
    requires RunOf(c.spec, c.now) == Some(run) && DecideRepair(c, f, run, drift).Some?
    ensures var d := DecideRepair(c, f, run, drift).value;
            && (WrittenBy(d).Some? ==>
                  var s := WrittenBy(d).value;
                  && s.observedGeneration == Some(c.spec.generation) && s.checkID == Some(Text(run.key))
                  && s.healthy == Some(false) && s.phase in {Some(REPAIRING), Some(REPAIR_FAILED)})
            && (WrittenBy(d).None? ==> d.Abort?)
  {
  }

  lemma ApplyReportTwice(c: Cluster, s: Status, run: CheckRun)
    ensures var once := Carry(c, ApplyReport(c, s, run), NO_FAULTS).0;
            once == c.(status := once.status) && ApplyReport(once, s, run).Keep?
  {
  }

  lemma CheckerTwice(c: Cluster, run: CheckRun)
    requires RunOf(c.spec, c.now) == Some(run)
    ensures var once := Carry(c, DecideChecker(c, NO_FAULTS, run), NO_FAULTS).0;
            && once == c.(status := once.status, checkerJobs := once.checkerJobs)
            && Carry(once, DecideChecker(once, NO_FAULTS, run), NO_FAULTS).0 == once
  {
  }

  lemma RepairTwice(c: Cluster, run: CheckRun, drift: Status)
    requires RunOf(c.spec, c.now) == Some(run)
    requires DecideRepair(c, NO_FAULTS, run, drift).Some?
    ensures var once := Carry(c, DecideRepair(c, NO_FAULTS, run, drift).value, NO_FAULTS).0;
            && once == c.(status := once.status, repairJobs := once.repairJobs)
            && DecideRepair(once, NO_FAULTS, run, drift).Some?
            && Carry(once, DecideRepair(once, NO_FAULTS, run, drift).value, NO_FAULTS).0 == once
  {
  }

  /** With nothing else moving, one undisturbed reconcile reaches a fixed point: the next changes nothing. */
  lemma ReconcileIsIdempotent(c: Cluster)
    ensures var once := Reconciled(c, NO_FAULTS).0;
            Reconciled(once, NO_FAULTS).0 == once
  {
    if RunOf(c.spec, c.now).Some? {
      var run := RunOf(c.spec, c.now).value;
      var repaired := ReadReport(c.repairReports, c.spec, run, c.now, false);
      var checked := ReadReport(c.reports, c.spec, run, c.now, false);
      if repaired.Found? {
        ApplyReportTwice(c, repaired.status, run);
      } else if checked.Found? {
        ApplyReportTwice(c, checked.status, run);
        if DecideRepair(c, NO_FAULTS, run, checked.status).Some? {
          RepairTwice(c, run, checked.status);
        }
      } else {
        CheckerTwice(c, run);
      }
    }
  }

  /** The report a reconcile of this run settles on, unless a repair has to be considered. */
  ghost predicate Settled(c: Cluster, s: Status) {
    && RunOf(c.spec, c.now).Some?
    && var run := RunOf(c.spec, c.now).value;
       var repaired := ReadReport(c.repairReports, c.spec, run, c.now, false);
       var checked := ReadReport(c.reports, c.spec, run, c.now, false);
       || repaired == Found(s)
       || (repaired == NotFound && checked == Found(s)
           && (s.phase != Some(DRIFT_DETECTED) || ChosenPolicy(c.policies, c.spec.name) == Ok(None)))
  }

  /**
   Quiescence: once the report a run settles on has been applied, a reconcile later in the same slot
   changes nothing, whichever of its calls fail, and whatever has become of the Jobs; and, if the
   report is not of drift or a repair report, whatever has become of the policies.
   */
  lemma SettledRunIsQuiet(c: Cluster, s: Status, later: Cluster, f: Faults)
    requires Settled(c, s) && AlreadyApplied(c.status, s)
    requires later.spec == c.spec && later.status == c.status
    requires later.reports == c.reports && later.repairReports == c.repairReports
    requires later.now >= c.now && RunOf(later.spec, later.now).value.key == RunOf(c.spec, c.now).value.key
    requires s.phase == Some(DRIFT_DETECTED)
             && ReadReport(c.repairReports, c.spec, RunOf(c.spec, c.now).value, c.now, false) == NotFound
             ==> later.policies == c.policies
    ensures Reconciled(later, f).0 == later
  {
    var run, run' := RunOf(c.spec, c.now).value, RunOf(later.spec, later.now).value;
    assert run'.interval == run.interval;
    var repaired := ReadReport(c.repairReports, c.spec, run, c.now, false);
    if repaired == NotFound {
      assert ReadReport(later.repairReports, later.spec, run', later.now, false) == NotFound;
    }
  }

  /** A repair for the run's drift has ended, without publishing its report. */
  ghost predicate RepairEndedSilently(c: Cluster) {
    && RunOf(c.spec, c.now).Some?
    && var run := RunOf(c.spec, c.now).value;
       var checked := ReadReport(c.reports, c.spec, run, c.now, false);
       && ReadReport(c.repairReports, c.spec, run, c.now, false) == NotFound
       && checked.Found? && checked.status.phase == Some(DRIFT_DETECTED)
       && ChosenPolicy(c.policies, c.spec.name).Ok? && ChosenPolicy(c.policies, c.spec.name).value.Some?
       && Text(run.key) in c.repairJobs && !c.repairJobs[Text(run.key)].state.Running?
  }

  /**
   The schedule goes on, with one exception: a successful reconcile of a scheduled Invariant asks to be
   requeued, after the retry delay or at the next slot, unless a repair has ended silently. Then it
   asks for nothing, and the next slot has to wait for some other event.
   */
  lemma RequeueIsLostIff(c: Cluster, f: Faults)
    requires RunOf(c.spec, c.now).Some? && RunOf(c.spec, c.now).value.Scheduled()
    requires Reconciled(c, f).1.Done?
    ensures Reconciled(c, f).1 == Done(None) <==> RepairEndedSilently(c)
    ensures !RepairEndedSilently(c) ==>
              Reconciled(c, f).1 in {Done(Some(RETRY_SECONDS)), Done(Some(RunOf(c.spec, c.now).value.requeue))}
    ensures RepairEndedSilently(c) ==>
              Reconciled(c, f).0.status.Some? && Reconciled(c, f).0.status.value.phase == Some(REPAIR_FAILED)
  {
    var run := RunOf(c.spec, c.now).value;
    assert !f.getRepairReport;
    var repaired := ReadReport(c.repairReports, c.spec, run, c.now, false);
    if repaired == NotFound {
      assert !f.getReport;
      var checked := ReadReport(c.reports, c.spec, run, c.now, false);
      if checked.Found? && checked.status.phase == Some(DRIFT_DETECTED)
         && DecideRepair(c, f, run, checked.status).Some? {
        RepairRequeue(c, f, run, checked.status);
      }
    }
  }

  lemma RepairRequeue(c: Cluster, f: Faults, run: CheckRun, drift: Status)
    requires RunOf(c.spec, c.now) == Some(run) && DecideRepair(c, f, run, drift).Some?
    ensures var (c', r) := Carry(c, DecideRepair(c, f, run, drift).value, f);
            r.Done? ==>
              var ended := Text(run.key) in c.repairJobs && !c.repairJobs[Text(run.key)].state.Running?;
              && r == Done(if ended then None else Some(RETRY_SECONDS))
              && (ended ==> c'.status.Some? && c'.status.value.phase == Some(REPAIR_FAILED))
  {
  }

  /**
   A finding that is shown already is not written again, not even for a later run with the same
   finding: after a successful reconcile that settles on a report, the status names the current check,
   and shows exactly the report, unless it showed the same finding for another check before.
   */
  lemma StatusNamesTheCheckIff(c: Cluster, s: Status, f: Faults)
    requires Settled(c, s) && Reconciled(c, f).1.Done?
    ensures var id := Text(RunOf(c.spec, c.now).value.key);
            var after := Reconciled(c, f).0.status;
            && (after.Some? && after.value.checkID == Some(id)
                <==> !(AlreadyApplied(c.status, s) && c.status.value.checkID != Some(id)))
            && (after == Some(s) <==> !(AlreadyApplied(c.status, s) && c.status.value != s))
            && after.Some? && SameFinding(after.value, s)
  {
    var run := RunOf(c.spec, c.now).value;
    assert !f.getRepairReport;
    if ReadReport(c.repairReports, c.spec, run, c.now, false) == NotFound {
      assert !f.getReport;
      if s.phase == Some(DRIFT_DETECTED) {
        assert DecideRepair(c, f, run, s) == None;
      }
    }
    assert Reconciled(c, f) == Carry(c, ApplyReport(c, s, run), f);
  }
}
