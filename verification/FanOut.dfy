/**
 Which Invariants are reconciled when a DataSource, a DerivedView or a Secret changes
 (`invariant_controller.go`), against what a checker Job takes from them (`resolveCheckerEnv`).
 All resources are those of one namespace, by name.
 */
module FanOut {
  import opened Common
  import opened Ordering

  datatype DataSource = DataSource(kind: Field<string>, connectionSecret: Field<string>,
      connectionSecretKey: Field<string>)

  datatype DerivedView = DerivedView(
    sourceRef: Field<string>,
    targetType: Field<string>, targetSecret: Field<string>, targetSecretKey: Field<string>,
    userKey: Field<string>, passwordKey: Field<string>,
    index: Field<string>, keyPrefix: Field<string>, table: Field<string>, database: Field<string>,
    topic: Field<string>, pipelineType: Field<string>, pipelineSecret: Field<string>,
    bootstrapServersKey: Field<string>)

  /** The DerivedView references of the Invariants, the DerivedViews and the DataSources. */
  datatype Namespace = Namespace(
    invariants: map<string, Field<string>>, derivedViews: map<string, DerivedView>,
    dataSources: map<string, DataSource>)

  datatype ResolveError = MissingDerivedView(view: string) | MissingDataSource(source: string) | UnreadableSourceRef

  /** `NestedString`, its error ignored. */
  function Text(f: Field<string>): string {
    if f.Present? then f.value else ""
  }

  function TextOr(f: Field<string>, fallback: string): string {
    if Text(f) == "" then fallback else Text(f)
  }

  // ----- environment lists -----

  function Upsert(env: seq<EnvVar>, v: EnvVar): seq<EnvVar> {
    if env == [] then [v]
    else if env[0].name == v.name then [v] + env[1..]
    else [env[0]] + Upsert(env[1..], v)
  }

  method UpsertEnvVar(env: seq<EnvVar>, v: EnvVar) returns (r: seq<EnvVar>)
    ensures r == Upsert(env, v)
    ensures (forall w :: w in env ==> w.name != v.name) ==> r == env + [v]
    ensures forall k :: 0 <= k < |env| && env[k].name == v.name && (forall j :: 0 <= j < k ==> env[j].name != v.name)
                        ==> r == env[k := v]
  {
    for i := 0 to |env|
      invariant Upsert(env, v) == env[..i] + Upsert(env[i..], v)
      invariant forall j :: 0 <= j < i ==> env[j].name != v.name
    {
      UpsertStep(env, v, i);
      if env[i].name == v.name {
        return env[i := v];
      }
    }
    UpsertEnd(env, v);
    r := env + [v];
  }

  lemma UpsertStep(env: seq<EnvVar>, v: EnvVar, i: nat)
    requires i < |env| && Upsert(env, v) == env[..i] + Upsert(env[i..], v)
    ensures Upsert(env, v) == if env[i].name == v.name then env[i := v] else env[..i + 1] + Upsert(env[i + 1..], v)
  {
    SplitHere(env, i, v, Upsert(env[i + 1..], v));
  }

  /** The parts of a sequence around an index. */
  lemma SplitHere<T>(xs: seq<T>, i: nat, x: T, rest: seq<T>)
    requires i < |xs|
    ensures xs[i..] != [] && xs[i..][0] == xs[i] && xs[i..][1..] == xs[i + 1..]
    ensures xs[..i] + ([x] + xs[i + 1..]) == xs[i := x]
    ensures xs[..i] + ([xs[i]] + rest) == xs[..i + 1] + rest
  {
  }

  lemma UpsertEnd(env: seq<EnvVar>, v: EnvVar)
    requires Upsert(env, v) == env[..|env|] + Upsert(env[|env|..], v)
    ensures Upsert(env, v) == env + [v]
  {
    assert env[|env|..] == [] && env[..|env|] == env;
  }

  ghost predicate NamesUnique(env: seq<EnvVar>) {
    forall i, j :: 0 <= i < j < |env| ==> env[i].name != env[j].name
  }

  lemma {:induction false} UpsertMembers(env: seq<EnvVar>, v: EnvVar)
    requires NamesUnique(env)
    ensures forall w :: w in Upsert(env, v) <==> w == v || (w in env && w.name != v.name)
  {
    if env != [] {
      var rest := env[1..];
      UpsertMembers(rest, v);
      assert env == [env[0]] + rest;
      assert forall w :: w in rest ==> w.name != env[0].name;
    }
  }

  lemma UniqueCons(head: EnvVar, rest: seq<EnvVar>)
    requires NamesUnique(rest) && forall w :: w in rest ==> w.name != head.name
    ensures NamesUnique([head] + rest)
  {
    assert forall j :: 0 <= j < |rest| ==> rest[j] in rest;
  }

  lemma {:induction false} UpsertKeepsUnique(env: seq<EnvVar>, v: EnvVar)
    requires NamesUnique(env)
    ensures NamesUnique(Upsert(env, v))
  {
    if env != [] {
      var head, rest := env[0], env[1..];
      assert forall w :: w in rest ==> w.name != head.name;
      if head.name == v.name {
        UniqueCons(v, rest);
      } else {
        UpsertKeepsUnique(rest, v);
        UpsertMembers(rest, v);
        UniqueCons(head, Upsert(rest, v));
      }
    }
  }

  /** An upsert sets one variable, keeps the others, and adds no second variable of a name. */
  lemma UpsertSetsOne(env: seq<EnvVar>, v: EnvVar)
    requires NamesUnique(env)
    ensures NamesUnique(Upsert(env, v))
    ensures forall w :: w in Upsert(env, v) <==> w == v || (w in env && w.name != v.name)
  {
    UpsertMembers(env, v);
    UpsertKeepsUnique(env, v);
  }

  /** One upsert after another. */
  function Upserts(env: seq<EnvVar>, vs: seq<EnvVar>): seq<EnvVar> {
    if vs == [] then env else Upsert(Upserts(env, vs[..|vs| - 1]), vs[|vs| - 1])
  }

  lemma {:induction false} UpsertsOnlyAdd(env: seq<EnvVar>, vs: seq<EnvVar>)
    requires NamesUnique(env)
    ensures NamesUnique(Upserts(env, vs))
    ensures forall w :: w in Upserts(env, vs) ==> w in vs || w in env
  {
    if vs != [] {
      var front := vs[..|vs| - 1];
      UpsertsOnlyAdd(env, front);
      UpsertSetsOne(Upserts(env, front), vs[|vs| - 1]);
      assert vs == front + [vs[|vs| - 1]];
    }
  }

  lemma {:induction false} UpsertsConcat(env: seq<EnvVar>, vs: seq<EnvVar>, ws: seq<EnvVar>)
    ensures Upserts(env, vs + ws) == Upserts(Upserts(env, vs), ws)
  {
    if ws == [] {
      assert vs + ws == vs;
    } else {
      UpsertsConcat(env, vs, ws[..|ws| - 1]);
      assert (vs + ws)[..|vs + ws| - 1] == vs + ws[..|ws| - 1];
    }
  }

  // ----- what a checker Job is given -----

  const CHECKER_ENV_NAMES := [
    "POSTGRES_DSN", "KAFKA_BOOTSTRAP_SERVERS", "ORDER_EVENTS_TOPIC", "OPENSEARCH_URL", "ORDERS_INDEX",
    "REDIS_URL", "ORDER_CACHE_PREFIX", "CLICKHOUSE_URL", "CLICKHOUSE_USER", "CLICKHOUSE_PASSWORD",
    "CLICKHOUSE_DATABASE", "CLICKHOUSE_TABLE", "REPORT_DIR", "REPORT_STORE", "REPORT_BUCKET",
    "REPORT_PREFIX", "REPORT_S3_ENDPOINT_URL", "REPORT_RETENTION_COUNT", "REPORT_RETENTION_DAYS",
    "REPORT_S3_SSE", "REPORT_S3_KMS_KEY_ID", "AWS_REGION"]

  /** `checkerEnv`: plain values, from annotations or defaults. */
  function CheckerEnv(value: string -> string): seq<EnvVar> {
    seq(|CHECKER_ENV_NAMES|, i requires 0 <= i < |CHECKER_ENV_NAMES| =>
      Plain(CHECKER_ENV_NAMES[i], value(CHECKER_ENV_NAMES[i])))
  }

  lemma CheckerEnvNamesAreDistinct()
    ensures forall i, j :: 0 <= i < j < |CHECKER_ENV_NAMES| ==> CHECKER_ENV_NAMES[i] != CHECKER_ENV_NAMES[j]
  {
  }

  lemma CheckerEnvIsPlain(value: string -> string)
    ensures NamesUnique(CheckerEnv(value)) && forall w :: w in CheckerEnv(value) ==> w.Plain?
  {
    CheckerEnvNamesAreDistinct();
    assert forall i :: 0 <= i < |CheckerEnv(value)| ==> CheckerEnv(value)[i].name == CHECKER_ENV_NAMES[i];
  }

  function When(c: bool, v: EnvVar): seq<EnvVar> {
    if c then [v] else []
  }

  /** `applyDataSourceEnv` */
  function DataSourceVars(d: DataSource): seq<EnvVar> {
    When(Text(d.kind) == "postgres" && Text(d.connectionSecret) != "",
         FromSecret("POSTGRES_DSN", Text(d.connectionSecret), TextOr(d.connectionSecretKey, "dsn")))
  }

  function ClickHouseVars(v: DerivedView): seq<EnvVar> {
    var secret := Text(v.targetSecret);
    [FromSecret("CLICKHOUSE_URL", secret, TextOr(v.targetSecretKey, "url"))]
    + [FromSecret("CLICKHOUSE_USER", secret, TextOr(v.userKey, "user"))]
    + [FromSecret("CLICKHOUSE_PASSWORD", secret, TextOr(v.passwordKey, "password"))]
  }

  predicate HasTargetSecret(v: DerivedView, kind: string) {
    Text(v.targetType) == kind && Text(v.targetSecret) != ""
  }

  /** What `applyDerivedViewEnv` sets from the target's Secret. */
  function TargetVars(v: DerivedView): seq<EnvVar> {
    var secret, key := Text(v.targetSecret), TextOr(v.targetSecretKey, "url");
    When(HasTargetSecret(v, "opensearch"), FromSecret("OPENSEARCH_URL", secret, key))
    + When(HasTargetSecret(v, "redis"), FromSecret("REDIS_URL", secret, key))
    + (if HasTargetSecret(v, "clickhouse") then ClickHouseVars(v) else [])
  }

  /** What it copies. */
  function CopiedVars(v: DerivedView): seq<EnvVar> {
    When(Text(v.index) != "", Plain("ORDERS_INDEX", Text(v.index)))
    + When(Text(v.keyPrefix) != "", Plain("ORDER_CACHE_PREFIX", Text(v.keyPrefix)))
    + When(Text(v.table) != "", Plain("CLICKHOUSE_TABLE", Text(v.table)))
    + When(Text(v.database) != "", Plain("CLICKHOUSE_DATABASE", Text(v.database)))
    + When(Text(v.topic) != "", Plain("ORDER_EVENTS_TOPIC", Text(v.topic)))
  }

  function PipelineVars(v: DerivedView): seq<EnvVar> {
    When(Text(v.pipelineType) == "kafka" && Text(v.pipelineSecret) != "",
         FromSecret("KAFKA_BOOTSTRAP_SERVERS", Text(v.pipelineSecret),
             TextOr(v.bootstrapServersKey, "bootstrapServers")))
  }

  /** `resolveCheckerEnv`; `base` is the list made from the Invariant's annotations. */
  function Resolve(ns: Namespace, name: string, base: seq<EnvVar>): Result<seq<EnvVar>, ResolveError>
    requires name in ns.invariants
  {
    var ref := Text(ns.invariants[name]);
    if ref == "" then Ok(base)
    else if ref !in ns.derivedViews then Err(MissingDerivedView(ref))
    else
      var view := ns.derivedViews[ref];
      var vars := TargetVars(view) + CopiedVars(view) + PipelineVars(view);
      if view.sourceRef.Malformed? then Err(UnreadableSourceRef)
      else if Text(view.sourceRef) == "" then Ok(Upserts(base, vars))
      else if view.sourceRef.value !in ns.dataSources then Err(MissingDataSource(view.sourceRef.value))
      else Ok(Upserts(base, DataSourceVars(ns.dataSources[view.sourceRef.value]) + vars))
  }

  method SetWhen(env: seq<EnvVar>, c: bool, v: EnvVar) returns (r: seq<EnvVar>)
    ensures r == Upserts(env, When(c, v))
  {
    r := env;
    if c {
      r := UpsertEnvVar(env, v);
      assert [v][..0] == [];
    }
  }

  method ApplyDataSourceEnv(env: seq<EnvVar>, d: DataSource) returns (r: seq<EnvVar>)
    ensures r == Upserts(env, DataSourceVars(d))
  {
    r := SetWhen(env, Text(d.kind) == "postgres" && Text(d.connectionSecret) != "",
                 FromSecret("POSTGRES_DSN", Text(d.connectionSecret), TextOr(d.connectionSecretKey, "dsn")));
  }

  method ApplyDerivedViewEnv(env: seq<EnvVar>, v: DerivedView) returns (r: seq<EnvVar>)
    ensures r == Upserts(env, TargetVars(v) + CopiedVars(v) + PipelineVars(v))
  {
    r := ApplyTargetSecret(env, v);
    r := ApplyCopies(r, v);
    r := SetWhen(r, Text(v.pipelineType) == "kafka" && Text(v.pipelineSecret) != "",
                 FromSecret("KAFKA_BOOTSTRAP_SERVERS", Text(v.pipelineSecret),
                     TextOr(v.bootstrapServersKey, "bootstrapServers")));
    UpsertsConcat(env, TargetVars(v), CopiedVars(v));
    UpsertsConcat(env, TargetVars(v) + CopiedVars(v), PipelineVars(v));
  }

  method ApplyTargetSecret(env: seq<EnvVar>, v: DerivedView) returns (r: seq<EnvVar>)
    ensures r == Upserts(env, TargetVars(v))
  {
    var secret, key := Text(v.targetSecret), TextOr(v.targetSecretKey, "url");
    var opensearch, redis := FromSecret("OPENSEARCH_URL", secret, key), FromSecret("REDIS_URL", secret, key);
    r := SetWhen(env, HasTargetSecret(v, "opensearch"), opensearch);
    r := SetWhen(r, HasTargetSecret(v, "redis"), redis);
    ghost var single := When(HasTargetSecret(v, "opensearch"), opensearch) + When(HasTargetSecret(v, "redis"), redis);
    UpsertsConcat(env, When(HasTargetSecret(v, "opensearch"), opensearch), When(HasTargetSecret(v, "redis"), redis));
    if HasTargetSecret(v, "clickhouse") {
      r := ApplyClickHouseSecret(r, v);
    }
    UpsertsConcat(env, single, if HasTargetSecret(v, "clickhouse") then ClickHouseVars(v) else []);
  }

  method ApplyClickHouseSecret(env: seq<EnvVar>, v: DerivedView) returns (r: seq<EnvVar>)
    ensures r == Upserts(env, ClickHouseVars(v))
  {
    var secret := Text(v.targetSecret);
    var url := FromSecret("CLICKHOUSE_URL", secret, TextOr(v.targetSecretKey, "url"));
    var user := FromSecret("CLICKHOUSE_USER", secret, TextOr(v.userKey, "user"));
    var password := FromSecret("CLICKHOUSE_PASSWORD", secret, TextOr(v.passwordKey, "password"));
    r := SetWhen(env, true, url);
    r := SetWhen(r, true, user);
    r := SetWhen(r, true, password);
    UpsertsConcat(env, [url], [user]);
    UpsertsConcat(env, [url] + [user], [password]);
  }

  method ApplyCopies(env: seq<EnvVar>, v: DerivedView) returns (r: seq<EnvVar>)
    ensures r == Upserts(env, CopiedVars(v))
  {
    var index, keyPrefix := Plain("ORDERS_INDEX", Text(v.index)), Plain("ORDER_CACHE_PREFIX", Text(v.keyPrefix));
    var table, database := Plain("CLICKHOUSE_TABLE", Text(v.table)), Plain("CLICKHOUSE_DATABASE", Text(v.database));
    var topic := Plain("ORDER_EVENTS_TOPIC", Text(v.topic));
    r := SetWhen(env, index.value != "", index);
    r := SetWhen(r, keyPrefix.value != "", keyPrefix);
    r := SetWhen(r, table.value != "", table);
    r := SetWhen(r, database.value != "", database);
    r := SetWhen(r, topic.value != "", topic);
    ghost var a := When(index.value != "", index);
    ghost var b := a + When(keyPrefix.value != "", keyPrefix);
    ghost var c := b + When(table.value != "", table);
    ghost var d := c + When(database.value != "", database);
    UpsertsConcat(env, a, When(keyPrefix.value != "", keyPrefix));
    UpsertsConcat(env, b, When(table.value != "", table));
    UpsertsConcat(env, c, When(database.value != "", database));
    UpsertsConcat(env, d, When(topic.value != "", topic));
  }

  method ResolveCheckerEnv(ns: Namespace, name: string, base: seq<EnvVar>)
      returns (r: Result<seq<EnvVar>, ResolveError>)
    requires name in ns.invariants
    ensures r == Resolve(ns, name, base)
  {
    var ref := Text(ns.invariants[name]);
    if ref == "" {
      return Ok(base);
    }
    if ref !in ns.derivedViews {
      return Err(MissingDerivedView(ref));
    }
    var view := ns.derivedViews[ref];
    if view.sourceRef.Malformed? {
      return Err(UnreadableSourceRef);
    }
    var env := base;
    if Text(view.sourceRef) != "" {
      if view.sourceRef.value !in ns.dataSources {
        return Err(MissingDataSource(view.sourceRef.value));
      }
      env := ApplyDataSourceEnv(env, ns.dataSources[view.sourceRef.value]);
      UpsertsConcat(base, DataSourceVars(ns.dataSources[view.sourceRef.value]),
                    TargetVars(view) + CopiedVars(view) + PipelineVars(view));
    }
    env := ApplyDerivedViewEnv(env, view);
    r := Ok(env);
  }

  // ----- what each variable is set to -----

  /** The field has this text, and it is not empty. */
  ghost predicate Says(f: Field<string>, text: string) {
    f == Present(text) && text != ""
  }

  ghost predicate SaysOr(f: Field<string>, text: string, fallback: string) {
    Says(f, text) || (text == fallback && forall t :: !Says(f, t))
  }

  /** The variables a DerivedView sets, by name: from which Secret and key, or to which text. */
  ghost predicate ViewSets(view: DerivedView, v: EnvVar) {
    match v
    case Plain(name, text) =>
      || (name == "ORDERS_INDEX" && Says(view.index, text))
      || (name == "ORDER_CACHE_PREFIX" && Says(view.keyPrefix, text))
      || (name == "CLICKHOUSE_TABLE" && Says(view.table, text))
      || (name == "CLICKHOUSE_DATABASE" && Says(view.database, text))
      || (name == "ORDER_EVENTS_TOPIC" && Says(view.topic, text))
    case FromSecret(name, secret, key) =>
      if name == "KAFKA_BOOTSTRAP_SERVERS" then
        && view.pipelineType == Present("kafka") && Says(view.pipelineSecret, secret)
        && SaysOr(view.bootstrapServersKey, key, "bootstrapServers")
      else
        && Says(view.targetSecret, secret)
        && (|| (name == "OPENSEARCH_URL" && view.targetType == Present("opensearch")
                && SaysOr(view.targetSecretKey, key, "url"))
            || (name == "REDIS_URL" && view.targetType == Present("redis") && SaysOr(view.targetSecretKey, key, "url"))
            || (name == "CLICKHOUSE_URL" && view.targetType == Present("clickhouse")
                && SaysOr(view.targetSecretKey, key, "url"))
            || (name == "CLICKHOUSE_USER" && view.targetType == Present("clickhouse")
                && SaysOr(view.userKey, key, "user"))
            || (name == "CLICKHOUSE_PASSWORD" && view.targetType == Present("clickhouse")
                && SaysOr(view.passwordKey, key, "password")))
  }

  /** The one a DataSource sets. */
  ghost predicate SourceSets(d: DataSource, v: EnvVar) {
    && d.kind == Present("postgres") && v.FromSecret? && v.name == "POSTGRES_DSN"
    && Says(d.connectionSecret, v.secret) && SaysOr(d.connectionSecretKey, v.key, "dsn")
  }

  lemma TextSays(f: Field<string>, fallback: string)
    ensures forall t :: t != "" ==> (Text(f) == t <==> Says(f, t))
    ensures Text(f) == "" <==> forall t :: !Says(f, t)
    ensures forall t :: fallback != "" ==> (TextOr(f, fallback) == t <==> SaysOr(f, t, fallback))
  {
    assert Text(f) != "" ==> Says(f, Text(f));
  }

  lemma WhenMembers(c: bool, v: EnvVar)
    ensures forall w :: w in When(c, v) <==> c && w == v
  {
  }

  lemma SourceVarsAre(d: DataSource)
    ensures forall v :: v in DataSourceVars(d) <==> SourceSets(d, v)
  {
    TextSays(d.kind, "postgres");
    TextSays(d.connectionSecret, "");
    TextSays(d.connectionSecretKey, "dsn");
  }

  lemma PipelineVarsAre(view: DerivedView)
    ensures forall v :: v in PipelineVars(view)
                        <==> v.FromSecret? && v.name == "KAFKA_BOOTSTRAP_SERVERS" && ViewSets(view, v)
  {
    TextSays(view.pipelineType, "kafka");
    TextSays(view.pipelineSecret, "");
    TextSays(view.bootstrapServersKey, "bootstrapServers");
  }

  lemma CopiedVarsAre(view: DerivedView)
    ensures forall v :: v in CopiedVars(view) <==> v.Plain? && ViewSets(view, v)
  {
    TextSays(view.index, "");
    TextSays(view.keyPrefix, "");
    TextSays(view.table, "");
    TextSays(view.database, "");
    TextSays(view.topic, "");
    WhenMembers(Text(view.index) != "", Plain("ORDERS_INDEX", Text(view.index)));
    WhenMembers(Text(view.keyPrefix) != "", Plain("ORDER_CACHE_PREFIX", Text(view.keyPrefix)));
    WhenMembers(Text(view.table) != "", Plain("CLICKHOUSE_TABLE", Text(view.table)));
    WhenMembers(Text(view.database) != "", Plain("CLICKHOUSE_DATABASE", Text(view.database)));
    WhenMembers(Text(view.topic) != "", Plain("ORDER_EVENTS_TOPIC", Text(view.topic)));
  }

  lemma TargetVarsAre(view: DerivedView)
    ensures forall v :: v in TargetVars(view)
                        <==> v.FromSecret? && v.name != "KAFKA_BOOTSTRAP_SERVERS" && ViewSets(view, v)
  {
    TextSays(view.targetType, "x");
    TextSays(view.targetSecret, "");
    TextSays(view.targetSecretKey, "url");
    TextSays(view.userKey, "user");
    TextSays(view.passwordKey, "password");
    var secret, key := Text(view.targetSecret), TextOr(view.targetSecretKey, "url");
    WhenMembers(HasTargetSecret(view, "opensearch"), FromSecret("OPENSEARCH_URL", secret, key));
    WhenMembers(HasTargetSecret(view, "redis"), FromSecret("REDIS_URL", secret, key));
    forall v ensures v in ClickHouseVars(view) <==>
                       || v == FromSecret("CLICKHOUSE_URL", secret, key)
                       || v == FromSecret("CLICKHOUSE_USER", secret, TextOr(view.userKey, "user"))
                       || v == FromSecret("CLICKHOUSE_PASSWORD", secret, TextOr(view.passwordKey, "password")) {
    }
  }

  /** What a DerivedView sets is what its lists hold. */
  lemma ViewVarsAre(view: DerivedView)
    ensures forall v :: v in TargetVars(view) + CopiedVars(view) + PipelineVars(view) <==> ViewSets(view, v)
  {
    TargetVarsAre(view);
    CopiedVarsAre(view);
    PipelineVarsAre(view);
  }

  /** The references of an Invariant lead to a resource that sets the variable. */
  ghost predicate IsSet(ns: Namespace, name: string, v: EnvVar)
    requires name in ns.invariants
  {
    exists ref :: Says(ns.invariants[name], ref) && ref in ns.derivedViews
      && (|| ViewSets(ns.derivedViews[ref], v)
          || exists d :: Says(ns.derivedViews[ref].sourceRef, d) && d in ns.dataSources
               && SourceSets(ns.dataSources[d], v))
  }

  /** No two of the variables have the same name. */
  ghost predicate OneEach(vs: seq<EnvVar>) {
    forall v, w :: v in vs && w in vs && v.name == w.name ==> v == w
  }

  lemma {:induction false} UpsertsMembers(env: seq<EnvVar>, vs: seq<EnvVar>)
    requires NamesUnique(env) && OneEach(vs)
    ensures NamesUnique(Upserts(env, vs))
    ensures forall w :: w in Upserts(env, vs) <==> w in vs || (w in env && forall v :: v in vs ==> v.name != w.name)
  {
    if vs != [] {
      var front, last := vs[..|vs| - 1], vs[|vs| - 1];
      assert vs == front + [last] && last in vs && forall v :: v in front ==> v in vs;
      UpsertsMembers(env, front);
      UpsertSetsOne(Upserts(env, front), last);
    }
  }

  lemma SaysOne(f: Field<string>, t: string, u: string, fallback: string)
    ensures Says(f, t) && Says(f, u) ==> t == u
    ensures SaysOr(f, t, fallback) && SaysOr(f, u, fallback) ==> t == u
  {
  }

  lemma ViewSetsOne(view: DerivedView, v: EnvVar, w: EnvVar)
    requires ViewSets(view, v) && ViewSets(view, w) && v.name == w.name
    ensures v == w && v.name != "POSTGRES_DSN"
  {
    if v.FromSecret? {
      SaysOne(view.targetSecret, v.secret, w.secret, "");
      SaysOne(view.targetSecretKey, v.key, w.key, "url");
      SaysOne(view.userKey, v.key, w.key, "user");
      SaysOne(view.passwordKey, v.key, w.key, "password");
      SaysOne(view.bootstrapServersKey, v.key, w.key, "bootstrapServers");
    }
  }

  lemma SourceSetsOne(d: DataSource, v: EnvVar, w: EnvVar)
    requires SourceSets(d, v) && SourceSets(d, w)
    ensures v == w && v.name == "POSTGRES_DSN"
  {
    SaysOne(d.connectionSecret, v.secret, w.secret, "");
    SaysOne(d.connectionSecretKey, v.key, w.key, "dsn");
  }

  lemma OneEachIsSet(view: DerivedView, d: DataSource)
    ensures var vars := TargetVars(view) + CopiedVars(view) + PipelineVars(view);
            OneEach(vars) && OneEach(DataSourceVars(d) + vars)
  {
    ViewVarsAre(view);
    SourceVarsAre(d);
    var vars := TargetVars(view) + CopiedVars(view) + PipelineVars(view);
    forall v, w | v in DataSourceVars(d) + vars && w in DataSourceVars(d) + vars && v.name == w.name ensures v == w {
      if SourceSets(d, v) && SourceSets(d, w) {
        SourceSetsOne(d, v, w);
      } else if ViewSets(view, v) && ViewSets(view, w) {
        ViewSetsOne(view, v, w);
      } else if SourceSets(d, v) {
        SourceSetsOne(d, v, v);
        ViewSetsOne(view, w, w);
      } else {
        SourceSetsOne(d, w, w);
        ViewSetsOne(view, v, v);
      }
    }
  }

  /**
   The environment of a Job, variable by variable: what the DerivedView and its DataSource set, and the
   base environment for every name that they do not set.
   */
  lemma ResolvedIs(ns: Namespace, name: string, base: seq<EnvVar>)
    requires name in ns.invariants && NamesUnique(base) && Resolve(ns, name, base).Ok?
    ensures forall v :: v in Resolve(ns, name, base).value <==>
              || IsSet(ns, name, v)
              || (v in base && forall w :: IsSet(ns, name, w) ==> w.name != v.name)
  {
    var ref := Text(ns.invariants[name]);
    TextSays(ns.invariants[name], "");
    if ref != "" {
      var view := ns.derivedViews[ref];
      var vars := TargetVars(view) + CopiedVars(view) + PipelineVars(view);
      var source := Text(view.sourceRef);
      TextSays(view.sourceRef, "");
      ViewVarsAre(view);
      var d := if source == "" then DataSource(Absent, Absent, Absent) else ns.dataSources[source];
      SourceVarsAre(d);
      OneEachIsSet(view, d);
      var all := if source == "" then vars else DataSourceVars(d) + vars;
      UpsertsMembers(base, all);
      assert forall v :: v in all <==> IsSet(ns, name, v);
    }
  }

  /** It cannot be resolved if and only if a reference leads nowhere, or that to the DataSource has the wrong type. */
  lemma ResolveFailsIff(ns: Namespace, name: string, base: seq<EnvVar>)
    requires name in ns.invariants
    ensures var r := Resolve(ns, name, base);
            && (forall ref :: r == Err(MissingDerivedView(ref))
                              <==> Says(ns.invariants[name], ref) && ref !in ns.derivedViews)
            && (r == Err(UnreadableSourceRef)
                <==> exists ref :: Says(ns.invariants[name], ref) && ref in ns.derivedViews
                       && ns.derivedViews[ref].sourceRef.Malformed?)
            && forall d :: r == Err(MissingDataSource(d))
                           <==> d !in ns.dataSources
                                && exists ref :: Says(ns.invariants[name], ref) && ref in ns.derivedViews
                                     && Says(ns.derivedViews[ref].sourceRef, d)
  {
    var ref := Text(ns.invariants[name]);
    TextSays(ns.invariants[name], "");
    if ref != "" && ref in ns.derivedViews {
      TextSays(ns.derivedViews[ref].sourceRef, "");
    }
  }

  // ----- who is reconciled -----

  function SourcesOfSecret(ns: Namespace, secret: string): set<string> {
    set d | d in ns.dataSources && Text(ns.dataSources[d].connectionSecret) == secret
  }

  function ViewsOfSecret(ns: Namespace, secret: string): set<string> {
    set v | v in ns.derivedViews
            && (|| Text(ns.derivedViews[v].sourceRef) in SourcesOfSecret(ns, secret)
                || Text(ns.derivedViews[v].targetSecret) == secret
                || Text(ns.derivedViews[v].pipelineSecret) == secret)
  }

  function ViewsOfDataSource(ns: Namespace, source: string): set<string> {
    set v | v in ns.derivedViews && Text(ns.derivedViews[v].sourceRef) == source
  }

  function InvariantsOf(ns: Namespace, views: set<string>): set<string> {
    set n | n in ns.invariants && Text(ns.invariants[n]) in views
  }

  ghost predicate Readable(ns: Namespace) {
    forall n :: n in ns.invariants ==> !ns.invariants[n].Malformed?
  }

  /** One Invariant whose reference has the wrong type fails the whole listing. */
  method InvariantRequests(ns: Namespace, views: set<string>) returns (r: Option<seq<string>>)
    ensures r.Some? <==> Readable(ns)
    ensures r.Some? ==> SortedListing(InvariantsOf(ns, views), r.value)
  {
    var rest, requested := ns.invariants.Keys, {};
    while rest != {}
      invariant rest <= ns.invariants.Keys
      invariant forall n :: n in ns.invariants && n !in rest ==> !ns.invariants[n].Malformed?
      invariant requested == set n | n in ns.invariants && n !in rest && Text(ns.invariants[n]) in views
      decreases rest
    {
      var n :| n in rest;
      if ns.invariants[n].Malformed? {
        return None;
      }
      rest := rest - {n};
      if Text(ns.invariants[n]) in views {
        requested := requested + {n};
      }
    }
    assert requested == InvariantsOf(ns, views);
    var names := SortedStrings(requested);
    r := Some(names);
  }

  /** The requests for the Invariants of some views: one reference of the wrong type leaves none. */
  ghost predicate AreRequests(requests: seq<string>, ns: Namespace, views: set<string>) {
    if Readable(ns) then SortedListing(InvariantsOf(ns, views), requests) else requests == []
  }

  method InvariantsForSecret(ns: Namespace, secret: string) returns (requests: seq<string>)
    ensures AreRequests(requests, ns, ViewsOfSecret(ns, secret))
  {
    var rest, sources := ns.dataSources.Keys, {};
    while rest != {}
      invariant rest <= ns.dataSources.Keys
      invariant sources == SourcesOfSecret(ns, secret) - rest
      decreases rest
    {
      var d :| d in rest;
      rest := rest - {d};
      if Text(ns.dataSources[d].connectionSecret) == secret {
        sources := sources + {d};
      }
    }
    assert sources == SourcesOfSecret(ns, secret);
    var more, views := ns.derivedViews.Keys, {};
    while more != {}
      invariant more <= ns.derivedViews.Keys
      invariant views == set v | v in ViewsOfSecret(ns, secret) && v !in more
      decreases more
    {
      var v :| v in more;
      more := more - {v};
      var view := ns.derivedViews[v];
      if Text(view.sourceRef) in sources || Text(view.targetSecret) == secret || Text(view.pipelineSecret) == secret {
        views := views + {v};
      }
    }
    assert views == ViewsOfSecret(ns, secret);
    requests := RequestsFor(ns, views);
  }

  method InvariantsForDataSource(ns: Namespace, source: string) returns (requests: seq<string>)
    ensures AreRequests(requests, ns, ViewsOfDataSource(ns, source))
  {
    var rest, views := ns.derivedViews.Keys, {};
    while rest != {}
      invariant rest <= ns.derivedViews.Keys
      invariant views == set v | v in ViewsOfDataSource(ns, source) && v !in rest
      decreases rest
    {
      var v :| v in rest;
      rest := rest - {v};
      if Text(ns.derivedViews[v].sourceRef) == source {
        views := views + {v};
      }
    }
    assert views == ViewsOfDataSource(ns, source);
    requests := RequestsFor(ns, views);
  }

  /** Without views there are no requests; a failed listing leaves none either. */
  method RequestsFor(ns: Namespace, views: set<string>) returns (requests: seq<string>)
    ensures AreRequests(requests, ns, views)
  {
    requests := [];
    if views == {} {
      assert InvariantsOf(ns, views) == {};
      return;
    }
    var listed := InvariantRequests(ns, views);
    if listed.Some? {
      requests := listed.value;
    }
  }

  /** The Invariants reconciled for a Secret are those whose DerivedView refers to it, or to a DataSource that does. */
  lemma ReachedFromSecretIff(ns: Namespace, secret: string, name: string)
    requires secret != "" && name in ns.invariants && "" !in ns.derivedViews && "" !in ns.dataSources
    ensures name in InvariantsOf(ns, ViewsOfSecret(ns, secret))
            <==> exists ref :: ns.invariants[name] == Present(ref) && ref in ns.derivedViews
                   && var view := ns.derivedViews[ref];
                      || view.targetSecret == Present(secret) || view.pipelineSecret == Present(secret)
                      || exists d :: view.sourceRef == Present(d) && d in ns.dataSources
                           && ns.dataSources[d].connectionSecret == Present(secret)
  {
    TextSays(ns.invariants[name], "");
    var ref := Text(ns.invariants[name]);
    if ref in ns.derivedViews {
      var view := ns.derivedViews[ref];
      TextSays(view.targetSecret, "");
      TextSays(view.pipelineSecret, "");
      TextSays(view.sourceRef, "");
      if Text(view.sourceRef) in ns.dataSources {
        TextSays(ns.dataSources[Text(view.sourceRef)].connectionSecret, "");
      }
    }
  }

  /** And those for a DataSource are those whose DerivedView refers to it. */
  lemma ReachedFromDataSourceIff(ns: Namespace, source: string, name: string)
    requires source != "" && name in ns.invariants && "" !in ns.derivedViews
    ensures name in InvariantsOf(ns, ViewsOfDataSource(ns, source))
            <==> exists ref :: ns.invariants[name] == Present(ref) && ref in ns.derivedViews
                   && ns.derivedViews[ref].sourceRef == Present(source)
  {
    TextSays(ns.invariants[name], "");
    var ref := Text(ns.invariants[name]);
    if ref in ns.derivedViews {
      TextSays(ns.derivedViews[ref].sourceRef, "");
    }
  }

  // ----- nothing a Job takes can change unnoticed -----

  /**
   If a Job's environment refers to a Secret, a change of that Secret reconciles the Invariant, if and
   only if no Invariant of the namespace has a reference of the wrong type.
   */
  lemma InjectedSecretIsWatched(ns: Namespace, name: string, base: seq<EnvVar>, v: EnvVar, requests: seq<string>)
    requires v.FromSecret? && AreRequests(requests, ns, ViewsOfSecret(ns, v.secret))
    requires name in ns.invariants && NamesUnique(base) && forall w :: w in base ==> w.Plain?
    requires Resolve(ns, name, base).Ok? && v in Resolve(ns, name, base).value
    ensures name in requests <==> Readable(ns)
  {
    InjectedSecretIsReached(ns, name, base, v);
  }

  /** In particular every Secret in the environment of a checker Job, which starts from the base environment. */
  lemma CheckerJobSecretIsWatched(ns: Namespace, name: string, value: string -> string, v: EnvVar,
      requests: seq<string>)
    requires v.FromSecret? && AreRequests(requests, ns, ViewsOfSecret(ns, v.secret))
    requires name in ns.invariants && Resolve(ns, name, CheckerEnv(value)).Ok?
    requires v in Resolve(ns, name, CheckerEnv(value)).value
    ensures name in requests <==> Readable(ns)
    ensures NamesUnique(Resolve(ns, name, CheckerEnv(value)).value)
  {
    CheckerEnvIsPlain(value);
    InjectedSecretIsWatched(ns, name, CheckerEnv(value), v, requests);
    ResolvedNamesAreUnique(ns, name, CheckerEnv(value));
  }

  lemma InjectedSecretIsReached(ns: Namespace, name: string, base: seq<EnvVar>, v: EnvVar)
    requires name in ns.invariants && NamesUnique(base) && forall w :: w in base ==> w.Plain?
    requires Resolve(ns, name, base).Ok? && v in Resolve(ns, name, base).value && v.FromSecret?
    ensures name in InvariantsOf(ns, ViewsOfSecret(ns, v.secret))
  {
    var ref := Text(ns.invariants[name]);
    if ref != "" {
      var view := ns.derivedViews[ref];
      var vars := TargetVars(view) + CopiedVars(view) + PipelineVars(view);
      var source := Text(view.sourceRef);
      var all := if source == "" then vars else DataSourceVars(ns.dataSources[source]) + vars;
      UpsertsOnlyAdd(base, all);
      CopiesAreNoSecrets(view, v);
      assert v in all;
      if v in vars {
        assert v in TargetVars(view) || v in PipelineVars(view);
      } else {
        assert source in SourcesOfSecret(ns, v.secret);
      }
      assert ref in ViewsOfSecret(ns, v.secret);
    }
  }

  lemma CopiesArePlain(view: DerivedView, v: EnvVar)
    ensures v in CopiedVars(view) ==> v.Plain?
  {
  }

  lemma TargetVarsAreOfItsSecret(view: DerivedView, v: EnvVar)
    ensures v in TargetVars(view) ==> v.FromSecret? && v.secret == Text(view.targetSecret)
  {
    assert v in ClickHouseVars(view) ==> v.FromSecret? && v.secret == Text(view.targetSecret);
  }

  lemma CopiesAreNoSecrets(view: DerivedView, v: EnvVar)
    ensures v in CopiedVars(view) ==> v.Plain?
    ensures v in TargetVars(view) ==> v.FromSecret? && v.secret == Text(view.targetSecret)
    ensures v in PipelineVars(view) ==> v.FromSecret? && v.secret == Text(view.pipelineSecret)
  {
    CopiesArePlain(view, v);
    TargetVarsAreOfItsSecret(view, v);
  }

  /** The resolved environment has no name twice. */
  lemma ResolvedNamesAreUnique(ns: Namespace, name: string, base: seq<EnvVar>)
    requires name in ns.invariants && NamesUnique(base)
    requires Resolve(ns, name, base).Ok?
    ensures NamesUnique(Resolve(ns, name, base).value)
  {
    var ref := Text(ns.invariants[name]);
    if ref != "" {
      var view := ns.derivedViews[ref];
      var vars := TargetVars(view) + CopiedVars(view) + PipelineVars(view);
      var source := Text(view.sourceRef);
      UpsertsOnlyAdd(base, if source == "" then vars else DataSourceVars(ns.dataSources[source]) + vars);
    }
  }

  function WithDataSource(ns: Namespace, source: string, d: Option<DataSource>): Namespace {
    ns.(dataSources := if d.Some? then ns.dataSources[source := d.value] else ns.dataSources - {source})
  }

  function WithDerivedView(ns: Namespace, view: string, v: Option<DerivedView>): Namespace {
    ns.(derivedViews := if v.Some? then ns.derivedViews[view := v.value] else ns.derivedViews - {view})
  }

  /**
   A DataSource that appears, changes or goes away reconciles every Invariant whose environment that
   alters, if and only if no Invariant of the namespace has a reference of the wrong type.
   */
  lemma DataSourceChangeIsNoticed(
    ns: Namespace, name: string, base: seq<EnvVar>, source: string, d: Option<DataSource>, requests: seq<string>)
    requires name in ns.invariants
    requires Resolve(WithDataSource(ns, source, d), name, base) != Resolve(ns, name, base)
    requires AreRequests(requests, WithDataSource(ns, source, d),
             ViewsOfDataSource(WithDataSource(ns, source, d), source))
    ensures name in requests <==> Readable(ns)
  {
    var ref, after := Text(ns.invariants[name]), WithDataSource(ns, source, d);
    assert ref != "" && ref in ns.derivedViews && Text(ns.derivedViews[ref].sourceRef) == source;
    assert ref in ViewsOfDataSource(after, source) && name in InvariantsOf(after, ViewsOfDataSource(after, source));
  }

  /** So does a DerivedView. */
  lemma DerivedViewChangeIsNoticed(
    ns: Namespace, name: string, base: seq<EnvVar>, view: string, v: Option<DerivedView>, requests: seq<string>)
    requires name in ns.invariants
    requires Resolve(WithDerivedView(ns, view, v), name, base) != Resolve(ns, name, base)
    requires AreRequests(requests, WithDerivedView(ns, view, v), {view})
    ensures name in requests <==> Readable(ns)
  {
    assert Text(ns.invariants[name]) == view;
    assert name in InvariantsOf(WithDerivedView(ns, view, v), {view});
  }
}
