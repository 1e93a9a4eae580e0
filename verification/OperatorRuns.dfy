/**
 Whole runs of the operator: reconciles interleaved, in any order, with an environment that publishes
 and removes reports, ends and deletes Jobs, lets time pass, and edits the Invariant and its policies.
 */
module OperatorRuns {
  import opened Common
  import opened Schedule
  import opened RepairPolicy
  import opened Reconciler

  /** A repair Job the operator created, and the cluster it decided on. */
  datatype Creation = Creation(before: Cluster, job: RepairRun)

  /**
   The cluster with its history: every payload ever published, by run id, the repair Jobs created so
   far, and the run ids whose repair Job was deleted.
   */
  datatype World = World(c: Cluster, published: set<(string, Status)>, created: seq<Creation>, deleted: seq<string>)

  datatype Event =
    | Reconcile(f: Faults)
    | PublishReport(id: string, report: Report)
    | PublishRepairReport(id: string, report: Report)
    | RemoveReport(id: string)
    | RemoveRepairReport(id: string)
    | CheckerEnds(id: string, state: JobState)
    | RepairEnds(id: string, state: JobState)
    | DeleteChecker(id: string)
    | DeleteRepair(id: string)
    | Tick(nanos: nat)
    | EditSpec(checkInterval: Field<int>, guarantee: string)
    | EditPolicies(policies: seq<Policy>)

  function Publish(published: set<(string, Status)>, id: string, report: Report): set<(string, Status)> {
    if report.Payload? then published + {(id, report.status)} else published
  }

  function Apply(w: World, e: Event): World {
    var c := w.c;
    match e
    case Reconcile(f) =>
      var c' := Reconciled(c, f).0;
      var d := Decide(c, f);
      w.(c := c', created := if d.StartRepair? then w.created + [Creation(c, d.job)] else w.created)
    case PublishReport(id, r) =>
      w.(c := c.(reports := c.reports[id := r]), published := Publish(w.published, id, r))
    case PublishRepairReport(id, r) =>
      w.(c := c.(repairReports := c.repairReports[id := r]), published := Publish(w.published, id, r))
    case RemoveReport(id) => w.(c := c.(reports := c.reports - {id}))
    case RemoveRepairReport(id) => w.(c := c.(repairReports := c.repairReports - {id}))
    case CheckerEnds(id, s) =>
      if id in c.checkerJobs then w.(c := c.(checkerJobs := c.checkerJobs[id := s])) else w
    case RepairEnds(id, s) =>
      if id in c.repairJobs then w.(c := c.(repairJobs := c.repairJobs[id := c.repairJobs[id].(state := s)])) else w
    case DeleteChecker(id) => w.(c := c.(checkerJobs := c.checkerJobs - {id}))
    case DeleteRepair(id) =>
      if id in c.repairJobs then w.(c := c.(repairJobs := c.repairJobs - {id}), deleted := w.deleted + [id]) else w
    case Tick(n) => w.(c := c.(now := c.now + n))
    case EditSpec(i, g) =>
      w.(c := c.(spec := c.spec.(generation := c.spec.generation + 1, checkInterval := i, guarantee := g)))
    case EditPolicies(ps) => w.(c := c.(policies := ps))
  }

  function Run(w: World, events: seq<Event>): World
    decreases |events|
  {
    if events == [] then w else Run(Apply(w, events[0]), events[1..])
  }

  /** A new Invariant: no status, no reports, no Jobs, no history. */
  ghost predicate Initial(w: World) {
    && w.c.spec.name != "" && w.c.status == None
    && w.c.reports == map[] && w.c.repairReports == map[]
    && w.c.checkerJobs == map[] && w.c.repairJobs == map[]
    && w.published == {} && w.created == [] && w.deleted == []
  }

  // ----- provenance -----

  ghost predicate ReportsPublished(w: World) {
    && (forall id :: id in w.c.reports && w.c.reports[id].Payload? ==> (id, w.c.reports[id].status) in w.published)
    && (forall id :: id in w.c.repairReports && w.c.repairReports[id].Payload? ==>
          (id, w.c.repairReports[id].status) in w.published)
  }

  /** The status is a published payload of the status's own generation and check, with the schedule added. */
  ghost predicate Reported(s: Status, published: set<(string, Status)>) {
    exists payload: Status, run: CheckRun, now: nat ::
      && (Text(run.key), payload) in published
      && s == Enriched(payload, now, run)
      && payload.observedGeneration == s.observedGeneration
      && payload.checkID == Some(Text(run.key))
  }

  ghost predicate Provenance(w: World) {
    w.c.status.Some? && (w.c.status.value.phase == Some(HEALTHY) || w.c.status.value.healthy == Some(true))
    ==> Reported(w.c.status.value, w.published)
  }

  /** A status only the operator writes. */
  predicate Own(s: Status) {
    s.phase != Some(HEALTHY) && s.healthy == Some(false)
  }

  /** What a reconcile writes is a status of its own, or a report it found. */
  lemma WritesAreOwnOrFound(c: Cluster, f: Faults)
    ensures var s := Reconciled(c, f).0.status;
            || s == c.status
            || (s.Some? && RunOf(c.spec, c.now).Some?
                && (|| Own(s.value)
                    || ReadReport(c.repairReports, c.spec, RunOf(c.spec, c.now).value, c.now, false) == Found(s.value)
                    || ReadReport(c.reports, c.spec, RunOf(c.spec, c.now).value, c.now, false) == Found(s.value)))
  {
    CarriedStatus(c, Decide(c, f), f);
    DecidedStatus(c, f);
  }

  /** The status a reconcile decides to write is of the current run: one of its own, or a report it found. */
  lemma DecidedStatus(c: Cluster, f: Faults)
    ensures var s := WrittenBy(Decide(c, f));
            s.Some? ==>
              && RunOf(c.spec, c.now).Some?
              && var run := RunOf(c.spec, c.now).value;
                 && s.value.observedGeneration == Some(c.spec.generation) && s.value.checkID == Some(Text(run.key))
                 && (|| Own(s.value)
                     || ReadReport(c.repairReports, c.spec, run, c.now, false) == Found(s.value)
                     || ReadReport(c.reports, c.spec, run, c.now, false) == Found(s.value))
  {
    if RunOf(c.spec, c.now).Some? {
      var run := RunOf(c.spec, c.now).value;
      var repaired := ReadReport(c.repairReports, c.spec, run, c.now, f.getRepairReport);
      var checked := ReadReport(c.reports, c.spec, run, c.now, f.getReport);
      if repaired.NotFound? && checked.Found? && DecideRepair(c, f, run, checked.status).Some? {
        RepairStatuses(c, f, run, checked.status);
      } else if repaired.NotFound? && checked.NotFound? {
        CheckerStatuses(c, f, run);
      }
    }
  }

  lemma CheckerStatuses(c: Cluster, f: Faults, run: CheckRun)
    ensures var s := WrittenBy(DecideChecker(c, f, run));
            s.Some? ==> Own(s.value) && s.value.observedGeneration == Some(c.spec.generation)
                        && s.value.checkID == Some(Text(run.key))
  {
  }

  lemma FoundIsReported(
    reports: map<string, Report>, spec: Spec, run: CheckRun, now: nat, published: set<(string, Status)>)
    requires forall id :: id in reports && reports[id].Payload? ==> (id, reports[id].status) in published
    requires ReadReport(reports, spec, run, now, false).Found?
    ensures Reported(ReadReport(reports, spec, run, now, false).status, published)
  {
    var payload := reports[Text(run.key)].status;
    assert ReadReport(reports, spec, run, now, false).status == Enriched(payload, now, run);
  }

  lemma MorePublished(s: Status, before: set<(string, Status)>, after: set<(string, Status)>)
    requires Reported(s, before) && before <= after
    ensures Reported(s, after)
  {
    var payload: Status, run: CheckRun, now: nat :|
      (Text(run.key), payload) in before && s == Enriched(payload, now, run)
      && payload.observedGeneration == s.observedGeneration && payload.checkID == Some(Text(run.key));
    assert (Text(run.key), payload) in after;
  }

  lemma ReconcileKeepsProvenance(w: World, f: Faults)
    requires ReportsPublished(w) && Provenance(w)
    ensures Provenance(w.(c := Reconciled(w.c, f).0))
  {
    var s := Reconciled(w.c, f).0.status;
    WritesAreOwnOrFound(w.c, f);
    if s != w.c.status && !Own(s.value) {
      var run := RunOf(w.c.spec, w.c.now).value;
      if ReadReport(w.c.repairReports, w.c.spec, run, w.c.now, false) == Found(s.value) {
        FoundIsReported(w.c.repairReports, w.c.spec, run, w.c.now, w.published);
      } else {
        FoundIsReported(w.c.reports, w.c.spec, run, w.c.now, w.published);
      }
    }
  }

  lemma ReconcileTouchesNoReports(c: Cluster, f: Faults)
    ensures var c' := Reconciled(c, f).0;
            c' == c.(status := c'.status, checkerJobs := c'.checkerJobs, repairJobs := c'.repairJobs)
  {
  }

  lemma ProvenanceKept(w: World, e: Event)
    requires ReportsPublished(w) && Provenance(w)
    ensures ReportsPublished(Apply(w, e)) && Provenance(Apply(w, e))
  {
    if e.Reconcile? {
      ReconcileKeepsProvenance(w, e.f);
      ReconcileTouchesNoReports(w.c, e.f);
    } else {
      EnvironmentKeepsProvenance(w, e);
    }
  }

  lemma EnvironmentKeepsReportsPublished(w: World, e: Event)
    requires ReportsPublished(w) && !e.Reconcile?
    ensures ReportsPublished(Apply(w, e))
  {
  }

  lemma EnvironmentKeepsStatus(w: World, e: Event)
    requires !e.Reconcile?
    ensures Apply(w, e).c.status == w.c.status && w.published <= Apply(w, e).published
  {
  }

  lemma EnvironmentKeepsProvenance(w: World, e: Event)
    requires ReportsPublished(w) && Provenance(w) && !e.Reconcile?
    ensures ReportsPublished(Apply(w, e)) && Provenance(Apply(w, e))
  {
    EnvironmentKeepsReportsPublished(w, e);
    EnvironmentKeepsStatus(w, e);
    if w.c.status.Some? && Reported(w.c.status.value, w.published) {
      MorePublished(w.c.status.value, w.published, Apply(w, e).published);
    }
  }

  // ----- the status never goes back -----

  ghost predicate NotAfter(k: RunKey, l: RunKey) {
    k.generation < l.generation || k == l || (k.Slot? && l.Slot? && k.generation == l.generation && k.slot <= l.slot)
  }

  ghost predicate IsOf(s: Status, k: RunKey) {
    s.observedGeneration == Some(k.generation) && s.checkID == Some(Text(k))
  }

  /** The run a reconcile would work for now is not before k. */
  ghost predicate Current(c: Cluster, k: RunKey) {
    k.generation < c.spec.generation || (RunOf(c.spec, c.now).Some? && NotAfter(k, RunOf(c.spec, c.now).value.key))
  }

  ghost predicate StatusIsDated(c: Cluster) {
    c.status.Some? ==> exists k :: IsOf(c.status.value, k) && Current(c, k)
  }

  /** Every status a reconcile writes belongs to the current run. */
  lemma WritesAreCurrent(c: Cluster, f: Faults)
    ensures var s := Reconciled(c, f).0.status;
            s == c.status || (s.Some? && RunOf(c.spec, c.now).Some? && IsOf(s.value, RunOf(c.spec, c.now).value.key))
  {
    CarriedStatus(c, Decide(c, f), f);
    DecidedStatus(c, f);
    if RunOf(c.spec, c.now).Some? {
      KeyOfRun(c);
    }
  }

  lemma KeyOfRun(c: Cluster)
    requires RunOf(c.spec, c.now).Some?
    ensures RunOf(c.spec, c.now).value.key.generation == c.spec.generation
  {
  }

  lemma CurrentStays(w: World, e: Event, k: RunKey)
    requires Current(w.c, k)
    ensures Current(Apply(w, e).c, k)
  {
    if e.Tick? && w.c.spec.checkInterval.Present? && w.c.spec.checkInterval.value > 0 {
      SlotsInOrder(w.c.spec.generation, w.c.spec.checkInterval.value, w.c.now, w.c.now + e.nanos);
    }
  }

  lemma StatusStaysDated(w: World, e: Event)
    requires StatusIsDated(w.c)
    ensures StatusIsDated(Apply(w, e).c)
  {
    var c' := Apply(w, e).c;
    if e.Reconcile? {
      WritesAreCurrent(w.c, e.f);
      assert c'.spec == w.c.spec && c'.now == w.c.now;
    }
    if c'.status.Some? {
      if c'.status == w.c.status {
        var k :| IsOf(w.c.status.value, k) && Current(w.c, k);
        CurrentStays(w, e, k);
      } else {
        var k := RunOf(w.c.spec, w.c.now).value.key;
        assert IsOf(c'.status.value, k) && Current(c', k);
      }
    }
  }

  /** One event never replaces the status of a run by that of an earlier run. */
  lemma StatusNeverGoesBack(w: World, e: Event, k: RunKey, l: RunKey)
    requires StatusIsDated(w.c)
    requires w.c.status.Some? && IsOf(w.c.status.value, k)
    requires Apply(w, e).c.status.Some? && IsOf(Apply(w, e).c.status.value, l)
    ensures NotAfter(k, l)
  {
    var k' :| IsOf(w.c.status.value, k') && Current(w.c, k');
    TextInjective(k, k');
    if Apply(w, e).c.status == w.c.status {
      TextInjective(k, l);
    } else {
      WritesAreCurrent(w.c, e.f);
      TextInjective(l, RunOf(w.c.spec, w.c.now).value.key);
    }
  }

  // ----- repair Jobs -----

  function IdOf(c: Cluster): string {
    if RunOf(c.spec, c.now).Some? then Text(RunOf(c.spec, c.now).value.key) else ""
  }

  /** The policy names the Invariant, needs no approval, and its first startable action gives mode and settings. */
  ghost predicate Grants(p: Policy, name: string, job: RepairRun) {
    exists i :: GrantsBy(p, name, i, job.mode, job.env)
  }

  /**
   Why a repair Job was created: a published report of this generation and this check says that drift
   was detected, the repair report of this check is not there or is not of this generation and check,
   the run has no repair Job yet, and a policy grants exactly this mode with these settings.
   */
  ghost predicate Justified(n: Creation, published: set<(string, Status)>) {
    var c, id := n.before, IdOf(n.before);
    && RunOf(c.spec, c.now).Some?
    && id in c.reports && c.reports[id].Payload? && (id, c.reports[id].status) in published
    && c.reports[id].status.phase == Some(DRIFT_DETECTED)
    && c.reports[id].status.observedGeneration == Some(c.spec.generation)
    && c.reports[id].status.checkID == Some(id)
    && (id in c.repairReports ==>
          c.repairReports[id].Payload?
          && !(c.repairReports[id].status.observedGeneration == Some(c.spec.generation)
               && c.repairReports[id].status.checkID == Some(id)))
    && id !in c.repairJobs
    && n.job.state == Running
    && exists p :: p in c.policies && Grants(p, c.spec.name, n.job)
  }

  /** When a reconcile starts a repair: what it has read, and the policy it goes by. */
  lemma StartMeansUnrepairedDrift(c: Cluster, f: Faults)
    requires Decide(c, f).StartRepair?
    ensures RunOf(c.spec, c.now).Some?
    ensures var run := RunOf(c.spec, c.now).value;
            && ReadReport(c.repairReports, c.spec, run, c.now, false) == NotFound
            && ReadReport(c.reports, c.spec, run, c.now, false).Found?
            && ReadReport(c.reports, c.spec, run, c.now, false).status.phase == Some(DRIFT_DETECTED)
            && Text(run.key) !in c.repairJobs
            && ChosenPolicy(c.policies, c.spec.name).Ok? && ChosenPolicy(c.policies, c.spec.name).value.Some?
            && var p := ChosenPolicy(c.policies, c.spec.name).value.value;
               Decide(c, f).job == RepairRun(Running, AutoMode(p).value.value, RepairEnv(p, AutoMode(p).value.value))
  {
  }

  lemma StartAddsOneJob(c: Cluster, f: Faults)
    ensures Reconciled(c, f).0.repairJobs
            == if Decide(c, f).StartRepair? then c.repairJobs[IdOf(c) := Decide(c, f).job] else c.repairJobs
    ensures Decide(c, f).StartRepair? ==> IdOf(c) !in c.repairJobs
  {
  }

  lemma ChosenPolicyGrants(p: Policy, name: string, job: RepairRun)
    requires Allows(p, name)
    requires job.mode == AutoMode(p).value.value && job.env == RepairEnv(p, job.mode)
    ensures Grants(p, name, job)
  {
    PolicyCases(p, name);
  }

  lemma StartIsJustified(w: World, f: Faults)
    requires ReportsPublished(w) && Decide(w.c, f).StartRepair?
    ensures Justified(Creation(w.c, Decide(w.c, f).job), w.published)
  {
    StartMeansUnrepairedDrift(w.c, f);
    var job := Decide(w.c, f).job;
    var p := ChosenPolicy(w.c.policies, w.c.spec.name).value.value;
    ChosenPolicyGrants(p, w.c.spec.name, job);
  }

  ghost predicate CreationsJustified(w: World) {
    forall i :: 0 <= i < |w.created| ==> Justified(w.created[i], w.published)
  }

  lemma CreationsStayJustified(w: World, e: Event)
    requires ReportsPublished(w) && CreationsJustified(w)
    ensures CreationsJustified(Apply(w, e))
  {
    if e.Reconcile? && Decide(w.c, e.f).StartRepair? {
      StartIsJustified(w, e.f);
    }
    assert w.published <= Apply(w, e).published;
  }

  function CreatedFor(created: seq<Creation>, id: string): nat {
    if created == [] then 0
    else CreatedFor(created[..|created| - 1], id) + (if IdOf(created[|created| - 1].before) == id then 1 else 0)
  }

  function DeletedFor(deleted: seq<string>, id: string): nat {
    if deleted == [] then 0
    else DeletedFor(deleted[..|deleted| - 1], id) + (if deleted[|deleted| - 1] == id then 1 else 0)
  }

  /** Every repair Job created for a run has been deleted since, or is the one that is there now. */
  ghost predicate Conserved(w: World, id: string) {
    CreatedFor(w.created, id) == DeletedFor(w.deleted, id) + if id in w.c.repairJobs then 1 else 0
  }

  lemma OneMoreCreated(created: seq<Creation>, n: Creation, id: string)
    ensures CreatedFor(created + [n], id) == CreatedFor(created, id) + (if IdOf(n.before) == id then 1 else 0)
  {
    assert (created + [n])[..|created|] == created;
  }

  lemma ReconcileConserves(w: World, f: Faults, id: string)
    requires Conserved(w, id)
    ensures Conserved(Apply(w, Reconcile(f)), id)
  {
    StartAddsOneJob(w.c, f);
    if Decide(w.c, f).StartRepair? {
      OneMoreCreated(w.created, Creation(w.c, Decide(w.c, f).job), id);
    }
  }

  lemma DeletionApplied(w: World, deleted: string)
    ensures var w' := Apply(w, DeleteRepair(deleted));
            && w'.created == w.created
            && w'.c.repairJobs == w.c.repairJobs - {deleted}
            && w'.deleted == if deleted in w.c.repairJobs then w.deleted + [deleted] else w.deleted
  {
  }

  lemma OneMoreDeleted(deleted: seq<string>, d: string, id: string)
    ensures DeletedFor(deleted + [d], id) == DeletedFor(deleted, id) + (if d == id then 1 else 0)
  {
    assert (deleted + [d])[..|deleted|] == deleted;
  }

  lemma DeletionConserves(w: World, deleted: string, id: string)
    requires Conserved(w, id)
    ensures Conserved(Apply(w, DeleteRepair(deleted)), id)
  {
    DeletionApplied(w, deleted);
    OneMoreDeleted(w.deleted, deleted, id);
  }

  lemma OtherEventsKeepRepairJobs(w: World, e: Event)
    requires !e.Reconcile? && !e.DeleteRepair?
    ensures var w' := Apply(w, e);
            w'.created == w.created && w'.deleted == w.deleted && w'.c.repairJobs.Keys == w.c.repairJobs.Keys
  {
  }

  lemma ConservationKept(w: World, e: Event, id: string)
    requires Conserved(w, id)
    ensures Conserved(Apply(w, e), id)
  {
    match e {
      case Reconcile(f) => ReconcileConserves(w, f, id);
      case DeleteRepair(deleted) => DeletionConserves(w, deleted, id);
      case _ =>
        OtherEventsKeepRepairJobs(w, e);
        assert id in w.c.repairJobs <==> id in w.c.repairJobs.Keys;
        assert id in Apply(w, e).c.repairJobs <==> id in Apply(w, e).c.repairJobs.Keys;
    }
  }

  // ----- every run -----

  ghost predicate Inv(w: World) {
    && ReportsPublished(w) && Provenance(w) && StatusIsDated(w.c) && CreationsJustified(w)
    && forall id :: Conserved(w, id)
  }

  lemma {:induction false} EveryRunKeepsInv(w: World, events: seq<Event>)
    requires Inv(w)
    ensures Inv(Run(w, events))
    decreases |events|
  {
    if events != [] {
      var w' := Apply(w, events[0]);
      ProvenanceKept(w, events[0]);
      StatusStaysDated(w, events[0]);
      CreationsStayJustified(w, events[0]);
      forall id ensures Conserved(w', id) {
        ConservationKept(w, events[0], id);
      }
      EveryRunKeepsInv(w', events[1..]);
    }
  }

  /**
   In every run from a new Invariant: a status that is healthy is a report someone published for the
   generation and check the status names; every repair Job ever created was justified when it was
   created; and a run has at most one repair Job at a time, created again only after a deletion.
   */
  lemma EveryRunIsSafe(w: World, events: seq<Event>)
    requires Initial(w)
    ensures var end := Run(w, events);
            && Provenance(end)
            && CreationsJustified(end)
            && (forall id :: CreatedFor(end.created, id) <= DeletedFor(end.deleted, id) + 1)
            && (forall id :: id !in end.deleted ==> CreatedFor(end.created, id) <= 1)
  {
    EveryRunKeepsInv(w, events);
    var end := Run(w, events);
    forall id ensures CreatedFor(end.created, id) <= DeletedFor(end.deleted, id) + 1
    {
      assert Conserved(end, id);
    }
    forall id | id !in end.deleted ensures CreatedFor(end.created, id) <= 1 {
      assert Conserved(end, id);
      NothingDeleted(end.deleted, id);
    }
  }

  lemma {:induction false} NothingDeleted(deleted: seq<string>, id: string)
    requires id !in deleted
    ensures DeletedFor(deleted, id) == 0
  {
    if deleted != [] {
      NothingDeleted(deleted[..|deleted| - 1], id);
    }
  }

  /** Over a whole run, the status never goes back to an earlier generation or an earlier slot. */
  lemma {:induction false} StatusNeverGoesBackInARun(w: World, events: seq<Event>, k: RunKey)
    requires Inv(w) && w.c.status.Some? && IsOf(w.c.status.value, k)
    ensures var end := Run(w, events).c.status;
            end.Some? && exists l :: IsOf(end.value, l) && NotAfter(k, l)
    decreases |events|
  {
    if events == [] {
      assert NotAfter(k, k);
    } else {
      var w' := Apply(w, events[0]);
      assert Inv(w') by { EveryRunKeepsInv(w, events[..1]); assert Run(w, events[..1]) == Run(w', []); }
      if events[0].Reconcile? { WritesAreCurrent(w.c, events[0].f); }
      assert w'.c.status.Some?;
      var m :| IsOf(w'.c.status.value, m) && Current(w'.c, m);
      StatusNeverGoesBack(w, events[0], k, m);
      StatusNeverGoesBackInARun(w', events[1..], m);
    }
  }

  lemma {:induction false} SomeCreationFor(created: seq<Creation>, id: string) returns (i: nat)
    requires CreatedFor(created, id) > 0
    ensures i < |created| && IdOf(created[i].before) == id
  {
    i := |created| - 1;
    if IdOf(created[i].before) != id {
      i := SomeCreationFor(created[..i], id);
    }
  }

  /**
   In every run from a new Invariant that is scheduled, a successful reconcile asks to be requeued. The
   one exception is a run whose repair has ended silently, and then that repair Job was created, and
   justified, for this very run.
   */
  lemma ScheduleGoesOn(w: World, events: seq<Event>, f: Faults) returns (i: nat)
    requires Initial(w)
    requires var c := Run(w, events).c;
             RunOf(c.spec, c.now).Some? && RunOf(c.spec, c.now).value.Scheduled() && Reconciled(c, f).1.Done?
    ensures var end := Run(w, events);
            && (Reconciled(end.c, f).1.requeueAfter.None? <==> RepairEndedSilently(end.c))
            && (Reconciled(end.c, f).1.requeueAfter.None? ==>
                  i < |end.created| && IdOf(end.created[i].before) == IdOf(end.c)
                  && Justified(end.created[i], end.published))
  {
    EveryRunKeepsInv(w, events);
    var end := Run(w, events);
    RequeueIsLostIff(end.c, f);
    i := 0;
    if RepairEndedSilently(end.c) {
      assert Conserved(end, IdOf(end.c));
      i := SomeCreationFor(end.created, IdOf(end.c));
    }
  }
}
