/**
 Which repair a RepairPolicy allows the operator to start by itself, and with which settings
 (`findAutoRepairPolicy`, `repairPolicyAutoRepairMode`, `repairPolicyEnv`).
 */
module RepairPolicy {
  import opened Common

  /** An entry of `spec.actions`; entries that are not objects are passed over. */
  datatype Action =
    | NotAnObject
    | Action(kind: string, endpoint: string, topic: string, keyTemplate: string, table: string, batchSize: string)

  /** A policy; `unsafeReindex` is whether its annotation allows direct reindexing. */
  datatype Policy = Policy(
    invariantRef: Field<string>, approvalRequired: Field<bool>, actions: Field<seq<Action>>, unsafeReindex: bool)

  /** The repair mode an action stands for, or the empty text if the operator may not start it. */
  function ModeForAction(kind: string, unsafeReindex: bool): string {
    if kind == "emit-reconcile-events" || kind == "replay-kafka" || kind == "call-webhook"
       || kind == "invalidate-cache" || kind == "clickhouse-backfill" then kind
    else if kind == "reindex-records" && unsafeReindex then "direct-reindex"
    else ""
  }

  function ModeOf(a: Action, unsafeReindex: bool): string {
    if a.NotAnObject? then "" else ModeForAction(a.kind, unsafeReindex)
  }

  /** The settings an action passes on: those of its fields that are not empty. */
  function ActionEnv(a: Action): seq<EnvVar>
    requires a.Action?
  {
    (if a.endpoint != "" then [Plain("REPAIR_WEBHOOK_URL", a.endpoint)] else [])
    + (if a.topic != "" then [Plain("REPAIR_KAFKA_TOPIC", a.topic)] else [])
    + (if a.keyTemplate != "" then [Plain("REDIS_KEY_TEMPLATE", a.keyTemplate)] else [])
    + (if a.table != "" then [Plain("CLICKHOUSE_BACKFILL_TABLE", a.table)] else [])
    + (if a.batchSize != "" then [Plain("REPAIR_WEBHOOK_BATCH_SIZE", a.batchSize)] else [])
  }

  /** The action at i decides: it is the first one the operator may start. */
  ghost predicate Deciding(p: Policy, i: int) {
    && p.actions.Present? && 0 <= i < |p.actions.value|
    && ModeOf(p.actions.value[i], p.unsafeReindex) != ""
    && forall k :: 0 <= k < i ==> ModeOf(p.actions.value[k], p.unsafeReindex) == ""
  }

  /** The policy may be acted on without approval. */
  predicate NeedsNoApproval(p: Policy) {
    p.approvalRequired.Absent? || (p.approvalRequired.Present? && !p.approvalRequired.value)
  }

  /** The mode a policy allows, if any; reading a field of the wrong type is an error. */
  method AutoRepairMode(p: Policy) returns (r: Result<Option<string>, ()>)
    ensures r.Err? <==> p.approvalRequired.Malformed? || (NeedsNoApproval(p) && p.actions.Malformed?)
    ensures r.Ok? && r.value.Some? ==>
              NeedsNoApproval(p)
              && exists i :: Deciding(p, i) && r.value.value == ModeOf(p.actions.value[i], p.unsafeReindex)
    ensures r.Ok? && r.value.None? ==> !NeedsNoApproval(p) || forall i :: !Deciding(p, i)
    ensures r == AutoMode(p)
  {
    if p.approvalRequired.Malformed? {
      return Err(());
    }
    if p.approvalRequired.Present? && p.approvalRequired.value {
      return Ok(None);
    }
    if p.actions.Malformed? {
      return Err(());
    }
    if p.actions.Absent? {
      return Ok(None);
    }
    var actions := p.actions.value;
    for i := 0 to |actions|
      invariant forall k :: 0 <= k < i ==> ModeOf(actions[k], p.unsafeReindex) == ""
      invariant FirstMode(actions, p.unsafeReindex) == FirstMode(actions[i..], p.unsafeReindex)
    {
      var mode := ModeOf(actions[i], p.unsafeReindex);
      assert actions[i..][0] == actions[i] && actions[i..][1..] == actions[i + 1..];
      if mode != "" {
        assert Deciding(p, i);
        return Ok(Some(mode));
      }
    }
    r := Ok(None);
  }

  function FirstMode(actions: seq<Action>, unsafeReindex: bool): Option<string> {
    if actions == [] then None
    else if ModeOf(actions[0], unsafeReindex) != "" then Some(ModeOf(actions[0], unsafeReindex))
    else FirstMode(actions[1..], unsafeReindex)
  }

  function AutoMode(p: Policy): Result<Option<string>, ()> {
    if p.approvalRequired.Malformed? then Err(())
    else if p.approvalRequired.Present? && p.approvalRequired.value then Ok(None)
    else if p.actions.Malformed? then Err(())
    else if p.actions.Absent? then Ok(None)
    else Ok(FirstMode(p.actions.value, p.unsafeReindex))
  }

  /** The settings for a repair mode: those of the first action that stands for it. */
  function FirstEnv(actions: seq<Action>, unsafeReindex: bool, mode: string): seq<EnvVar> {
    if actions == [] then []
    else if actions[0].Action? && ModeOf(actions[0], unsafeReindex) == mode then ActionEnv(actions[0])
    else FirstEnv(actions[1..], unsafeReindex, mode)
  }

  function RepairEnv(p: Policy, mode: string): seq<EnvVar> {
    if p.actions.Present? then FirstEnv(p.actions.value, p.unsafeReindex, mode) else []
  }

  lemma {:induction false} FirstModeAndEnv(actions: seq<Action>, unsafeReindex: bool) returns (i: nat)
    ensures FirstMode(actions, unsafeReindex).None? ==>
              forall k :: 0 <= k < |actions| ==> ModeOf(actions[k], unsafeReindex) == ""
    ensures FirstMode(actions, unsafeReindex).Some? ==>
              var mode := FirstMode(actions, unsafeReindex).value;
              && i < |actions| && actions[i].Action? && ModeOf(actions[i], unsafeReindex) == mode != ""
              && (forall k :: 0 <= k < i ==> ModeOf(actions[k], unsafeReindex) == "")
              && FirstEnv(actions, unsafeReindex, mode) == ActionEnv(actions[i])
  {
    i := 0;
    if actions != [] && ModeOf(actions[0], unsafeReindex) == "" {
      i := FirstModeAndEnv(actions[1..], unsafeReindex);
      i := i + 1;
    }
  }

  /**
   The settings come from the action that fixed the mode: mode and settings are found by two separate
   passes over the actions, and both stop at the same action, the first the operator may start.
   */
  lemma EnvComesFromDecidingAction(p: Policy)
    requires AutoMode(p).Ok? && AutoMode(p).value.Some?
    ensures NeedsNoApproval(p)
    ensures exists i :: Deciding(p, i) && p.actions.value[i].Action?
              && AutoMode(p).value.value == ModeOf(p.actions.value[i], p.unsafeReindex)
              && RepairEnv(p, AutoMode(p).value.value) == ActionEnv(p.actions.value[i])
  {
    var i := FirstModeAndEnv(p.actions.value, p.unsafeReindex);
    assert Deciding(p, i);
  }

  /** Direct reindexing is never started without the annotation that allows it. */
  lemma DirectReindexNeedsAnnotation(p: Policy)
    requires AutoMode(p) == Ok(Some("direct-reindex"))
    ensures p.unsafeReindex
    ensures exists i :: Deciding(p, i) && p.actions.value[i].Action? && p.actions.value[i].kind == "reindex-records"
  {
    var i := FirstModeAndEnv(p.actions.value, p.unsafeReindex);
    assert Deciding(p, i);
  }

  // ----- in the terms of the policy's own fields -----

  /** The operator may start the action, in this mode: each kind but one has the mode of its name. */
  ghost predicate Starts(a: Action, unsafeReindex: bool, mode: string) {
    && a.Action?
    && (|| (a.kind == mode && mode in {"emit-reconcile-events", "replay-kafka", "call-webhook", "invalidate-cache",
                                       "clickhouse-backfill"})
        || (a.kind == "reindex-records" && unsafeReindex && mode == "direct-reindex"))
  }

  /** The variables an action sets. */
  ghost predicate Sets(a: Action, v: EnvVar)
    requires a.Action?
  {
    && v.Plain? && v.value != ""
    && (|| (v.name == "REPAIR_WEBHOOK_URL" && v.value == a.endpoint)
        || (v.name == "REPAIR_KAFKA_TOPIC" && v.value == a.topic)
        || (v.name == "REDIS_KEY_TEMPLATE" && v.value == a.keyTemplate)
        || (v.name == "CLICKHOUSE_BACKFILL_TABLE" && v.value == a.table)
        || (v.name == "REPAIR_WEBHOOK_BATCH_SIZE" && v.value == a.batchSize))
  }

  lemma ModeOfKind(a: Action, unsafeReindex: bool, mode: string)
    ensures mode != "" ==> (ModeOf(a, unsafeReindex) == mode <==> Starts(a, unsafeReindex, mode))
    ensures ModeOf(a, unsafeReindex) == "" <==> forall m :: !Starts(a, unsafeReindex, m)
  {
    assert ModeOf(a, unsafeReindex) != "" ==> Starts(a, unsafeReindex, ModeOf(a, unsafeReindex));
  }

  /** An action passes on exactly its filled fields, each under its own name. */
  lemma SettingsOfAction(a: Action)
    requires a.Action?
    ensures forall v :: v in ActionEnv(a) <==> Sets(a, v)
    ensures forall i, j :: 0 <= i < j < |ActionEnv(a)| ==> ActionEnv(a)[i].name != ActionEnv(a)[j].name
  {
    var url := if a.endpoint != "" then [Plain("REPAIR_WEBHOOK_URL", a.endpoint)] else [];
    var topic := if a.topic != "" then [Plain("REPAIR_KAFKA_TOPIC", a.topic)] else [];
    var key := if a.keyTemplate != "" then [Plain("REDIS_KEY_TEMPLATE", a.keyTemplate)] else [];
    var table := if a.table != "" then [Plain("CLICKHOUSE_BACKFILL_TABLE", a.table)] else [];
    var size := if a.batchSize != "" then [Plain("REPAIR_WEBHOOK_BATCH_SIZE", a.batchSize)] else [];
    assert ActionEnv(a) == url + topic + key + table + size;
  }

  /** The policy grants a repair of the Invariant by its i-th action: without approval, and no earlier one can start. */
  ghost predicate GrantsBy(p: Policy, name: string, i: int, mode: string, env: seq<EnvVar>) {
    && p.invariantRef == Present(name) && p.approvalRequired in {Absent, Present(false)}
    && p.actions.Present? && 0 <= i < |p.actions.value|
    && Starts(p.actions.value[i], p.unsafeReindex, mode)
    && (forall k, m :: 0 <= k < i ==> !Starts(p.actions.value[k], p.unsafeReindex, m))
    && (forall v :: v in env <==> Sets(p.actions.value[i], v))
    && (forall k, l :: 0 <= k < l < |env| ==> env[k].name != env[l].name)
  }

  /** A field of it that has to be read has the wrong type. */
  ghost predicate WrongTyped(p: Policy, name: string) {
    || p.invariantRef.Malformed?
    || (p.invariantRef == Present(name)
        && (p.approvalRequired.Malformed? || (p.approvalRequired != Present(true) && p.actions.Malformed?)))
  }

  /** It is of another Invariant, or needs approval, or has no action to start. */
  ghost predicate PassedOver(p: Policy, name: string) {
    && !p.invariantRef.Malformed?
    && (p.invariantRef == Present(name) ==>
          || p.approvalRequired == Present(true)
          || (!p.approvalRequired.Malformed?
              && (p.actions.Absent?
                  || (p.actions.Present?
                      && forall k, m :: 0 <= k < |p.actions.value| ==>
                           !Starts(p.actions.value[k], p.unsafeReindex, m)))))
  }

  // ----- choosing the policy -----

  /** The policy names the invariant and allows a mode. */
  predicate Allows(p: Policy, name: string) {
    p.invariantRef == Present(name) && AutoMode(p).Ok? && AutoMode(p).value.Some?
  }

  /** Reading the policy fails, given that it is looked at. */
  predicate Unreadable(p: Policy, name: string) {
    p.invariantRef.Malformed? || (p.invariantRef == Present(name) && AutoMode(p).Err?)
  }

  /** The first policy that allows a repair, unless an unreadable one comes before it. */
  function ChosenPolicy(policies: seq<Policy>, name: string): (r: Result<Option<Policy>, ()>)
    ensures r.Ok? && r.value.Some? ==> r.value.value in policies && Allows(r.value.value, name)
  {
    if policies == [] then Ok(None)
    else if Unreadable(policies[0], name) then Err(())
    else if Allows(policies[0], name) then Ok(Some(policies[0]))
    else ChosenPolicy(policies[1..], name)
  }

  /** What looking at one policy comes to. */
  lemma PolicyCases(p: Policy, name: string)
    ensures Unreadable(p, name) <==> WrongTyped(p, name)
    ensures !Unreadable(p, name) && !Allows(p, name) ==> PassedOver(p, name)
    ensures Allows(p, name) ==>
              var mode := AutoMode(p).value.value;
              exists i :: GrantsBy(p, name, i, mode, RepairEnv(p, mode))
  {
    if p.actions.Present? {
      var i := FirstModeAndEnv(p.actions.value, p.unsafeReindex);
      var mode := FirstMode(p.actions.value, p.unsafeReindex);
      forall k | 0 <= k < |p.actions.value|
        ensures ModeOf(p.actions.value[k], p.unsafeReindex) == ""
                <==> forall m :: !Starts(p.actions.value[k], p.unsafeReindex, m)
      {
        ModeOfKind(p.actions.value[k], p.unsafeReindex, "");
      }
      if mode.Some? {
        ModeOfKind(p.actions.value[i], p.unsafeReindex, mode.value);
        SettingsOfAction(p.actions.value[i]);
        assert Allows(p, name) ==> GrantsBy(p, name, i, mode.value, RepairEnv(p, mode.value));
      }
    }
  }

  /**
   The first policy that can start a repair of the Invariant decides, unless one before it cannot be
   read: mode and settings are those of its first action that the operator may start.
   */
  ghost predicate IsChoice(policies: seq<Policy>, name: string, choice: Result<Option<(Policy, string)>, ()>, j: int) {
    && 0 <= j <= |policies|
    && (forall k :: 0 <= k < j ==> PassedOver(policies[k], name))
    && match choice
       case Err(_) => j < |policies| && WrongTyped(policies[j], name)
       case Ok(None) => j == |policies|
       case Ok(Some((p, mode))) =>
         j < |policies| && p == policies[j] && exists i :: GrantsBy(p, name, i, mode, RepairEnv(p, mode))
  }

  function Choice(policies: seq<Policy>, name: string): Result<Option<(Policy, string)>, ()> {
    match ChosenPolicy(policies, name)
    case Err(_) => Err(())
    case Ok(None) => Ok(None)
    case Ok(Some(p)) => Ok(Some((p, AutoMode(p).value.value)))
  }

  lemma {:induction false} FirstGrantingPolicy(policies: seq<Policy>, name: string) returns (j: nat)
    ensures IsChoice(policies, name, Choice(policies, name), j)
  {
    j := 0;
    if policies != [] {
      PolicyCases(policies[0], name);
      if !Unreadable(policies[0], name) && !Allows(policies[0], name) {
        j := FirstGrantingPolicy(policies[1..], name);
        assert forall k :: 0 < k <= j && k < |policies| ==> policies[k] == policies[1..][k - 1];
        j := j + 1;
      }
    }
  }

  /** A policy without `invariantRef` reads as one for the empty name, which no invariant has. */
  method FindAutoRepairPolicy(policies: seq<Policy>, name: string) returns (r: Result<Option<(Policy, string)>, ()>)
    requires name != ""
    ensures r == Choice(policies, name)
  {
    for i := 0 to |policies|
      invariant ChosenPolicy(policies, name) == ChosenPolicy(policies[i..], name)
    {
      var p := policies[i];
      assert policies[i..][0] == p && policies[i..][1..] == policies[i + 1..];
      if p.invariantRef.Malformed? {
        return Err(());
      }
      if p.invariantRef != Present(name) {
        continue;
      }
      var mode := AutoRepairMode(p);
      if mode.Err? {
        return Err(());
      }
      if mode.value.Some? {
        return Ok(Some((p, mode.value.value)));
      }
    }
    r := Ok(None);
  }
}
