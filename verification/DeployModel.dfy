/** Deploy documents and replicated records, with the keys under which they are stored. */
module DeployModel {
  import opened Common
  import opened GoStrings

  /** A Go `map[string]V`: nil reads as empty, and the first write allocates. */
  datatype Table<+V> = Nil | Rows(rows: map<string, V>)

  function Entries<V>(t: Table<V>): map<string, V> {
    if t.Nil? then map[] else t.rows
  }

  function Put<V>(t: Table<V>, key: string, v: V): Table<V> {
    Rows(Entries(t)[key := v])
  }

  function Drop<V>(t: Table<V>, key: string): Table<V> {
    if t.Nil? then Nil else Rows(t.rows - {key})
  }

  datatype Metadata = Metadata(name: string, namespace: string, labels: Table<string>, annotations: Table<string>)

  datatype Endpoint = Endpoint(name: string, protocol: string, port: int)

  datatype Resources = Resources(cpuMillis: int, memoryBytes: int)

  /** `rest` stands for the JSON text of the fields that no modelled operation reads. */
  datatype Workload = Workload(
    name: string, endpoints: seq<Endpoint>, resources: Option<Resources>, preferredNodes: seq<string>, rest: string)

  datatype Route = Route(path: string, workload: string, endpoint: string)

  datatype App = App(meta: Metadata, workloads: seq<Workload>, ingresses: seq<seq<Route>>, rest: string)

  datatype NodeSnapshot = NodeSnapshot(
    nodeId: string, logicalCores: int, cpuUsagePercent: real, memoryAvail: nat, rest: string)

  datatype Assignment = Assignment(
    key: string, meta: Metadata, workload: string, node: string, address: string,
    status: string, generation: string, error: string, rest: string)

  datatype Binding = Binding(
    key: string, meta: Metadata, volume: string, workload: string, target: string, node: string,
    source: string, status: string, rest: string)

  const STATUS_RUNNING := "running"
  const STATUS_FAILED := "failed"

  function NamespaceOrDefault(ns: string): (r: string)
    ensures r != ""
  {
    var t := TrimSpace(ns);
    if t == "" then "default" else t
  }

  function DeployAppMapKey(m: Metadata): string {
    NamespaceOrDefault(m.namespace) + "/" + TrimSpace(m.name)
  }

  function AssignmentKey(m: Metadata, workload: string): string {
    var app, w := TrimSpace(m.name), TrimSpace(workload);
    if app == "" || w == "" then "" else NamespaceOrDefault(m.namespace) + "/" + app + "/" + w
  }

  function BindingKey(m: Metadata, workload: string, volume: string): string {
    var app, w, v := TrimSpace(m.name), TrimSpace(workload), TrimSpace(volume);
    if app == "" || w == "" || v == "" then ""
    else NamespaceOrDefault(m.namespace) + "/" + app + "/" + w + "/" + v
  }

  // ---- nil and empty ----

  /** JSON with `omitempty` drops an empty table, so it comes back nil. */
  function Canon<V>(t: Table<V>): Table<V> {
    if Entries(t) == map[] then Nil else t
  }

  function CanonMeta(m: Metadata): Metadata {
    m.(labels := Canon(m.labels), annotations := Canon(m.annotations))
  }

  function CanonApp(a: App): App { a.(meta := CanonMeta(a.meta)) }

  function CanonAssignment(a: Assignment): Assignment { a.(meta := CanonMeta(a.meta)) }

  function CanonBinding(b: Binding): Binding { b.(meta := CanonMeta(b.meta)) }

  // ---- generations ----

  /** A generation function, as the replicated state machine uses one. */
  type Gen = App -> string

  /** What the state machine relies on: generations are never blank and ignore nil versus empty. */
  ghost predicate Sound(gen: Gen) {
    && (forall a: App {:trigger TrimSpace(gen(a))} :: TrimSpace(gen(a)) != "")
    && (forall a: App, b: App :: CanonApp(a) == CanonApp(b) ==> gen(a) == gen(b))
  }

  /** The first 64 bits of the hash of an app's JSON text: any function of the canonical app. */
  type Digest = App -> Word64

  function HexDigit(d: nat): (c: char)
    requires d < 16
    ensures !IsSpace(c)
  {
    if d < 10 then '0' + d as char else 'a' + (d - 10) as char
  }

  function Hex(w: nat, digits: nat): (s: string)
    ensures |s| == digits
    ensures forall c | c in s :: !IsSpace(c)
  {
    if digits == 0 then "" else Hex(w / 16, digits - 1) + [HexDigit(w % 16)]
  }

  function InNamespace(app: App, ns: string): App {
    App(app.meta.(namespace := ns), app.workloads, app.ingresses, app.rest)
  }

  /** What a generation depends on: the app in its resolved namespace, with empty tables dropped. */
  function Identity(app: App): App {
    CanonApp(InNamespace(app, NamespaceOrDefault(app.meta.namespace)))
  }

  /** AppGeneration: sixteen hexadecimal digits, so never blank. */
  function AppGeneration(digest: Digest, app: App): (g: string)
    ensures g != "" && TrimSpace(g) == g
  {
    var g := Hex(digest(Identity(app)), 16);
    assert g[0] in g && g[15] in g;
    g
  }

  lemma NamespaceIdempotent(ns: string)
    ensures NamespaceOrDefault(NamespaceOrDefault(ns)) == NamespaceOrDefault(ns)
  {
    var d := "default";
    assert !IsSpace(d[0]) && !IsSpace(d[|d| - 1]);
  }

  lemma CanonIdempotent(app: App)
    ensures CanonApp(CanonApp(app)) == CanonApp(app)
  {
    assert Canon(Canon(app.meta.labels)) == Canon(app.meta.labels);
    assert Canon(Canon(app.meta.annotations)) == Canon(app.meta.annotations);
  }

  /** Generations ignore the difference between nil and empty label tables, and between a blank namespace
      and the default one. */
  lemma GenerationIgnores(digest: Digest, app: App)
    ensures AppGeneration(digest, CanonApp(app)) == AppGeneration(digest, app)
    ensures AppGeneration(digest, InNamespace(app, NamespaceOrDefault(app.meta.namespace))) == AppGeneration(digest, app)
  {
    var ns := NamespaceOrDefault(app.meta.namespace);
    NamespaceIdempotent(app.meta.namespace);
    assert Identity(InNamespace(app, ns)) == CanonApp(InNamespace(app, ns));
    CanonIdempotent(InNamespace(app, ns));
    assert InNamespace(CanonApp(app), ns) == CanonApp(InNamespace(app, ns));
    assert Identity(CanonApp(app)) == Identity(app);
  }

  /** AppGeneration is sound for every hash. */
  lemma AppGenerationSound(digest: Digest)
    ensures Sound(app => AppGeneration(digest, app))
  {
    forall a: App, b: App | CanonApp(a) == CanonApp(b)
      ensures AppGeneration(digest, a) == AppGeneration(digest, b)
    {
      GenerationIgnores(digest, a);
      GenerationIgnores(digest, b);
    }
  }

  // ---- what a generation tells apart ----

  function Pow16(d: nat): nat { if d == 0 then 1 else 16 * Pow16(d - 1) }

  lemma HexDigitInjective(a: nat, b: nat)
    requires a < 16 && b < 16 && HexDigit(a) == HexDigit(b)
    ensures a == b
  {
  }

  lemma {:induction false} HexInjective(w: nat, v: nat, d: nat)
    requires w < Pow16(d) && v < Pow16(d) && Hex(w, d) == Hex(v, d)
    ensures w == v
  {
    if d > 0 {
      var x, y := Hex(w / 16, d - 1), Hex(v / 16, d - 1);
      assert Hex(w, d)[..d - 1] == x && Hex(v, d)[..d - 1] == y;
      assert Hex(w, d)[d - 1] == HexDigit(w % 16) && Hex(v, d)[d - 1] == HexDigit(v % 16);
      HexDigitInjective(w % 16, v % 16);
      HexInjective(w / 16, v / 16, d - 1);
      assert w == 16 * (w / 16) + w % 16 && v == 16 * (v / 16) + v % 16;
    }
  }

  lemma SixteenDigits()
    ensures Pow16(16) == TWO_TO_THE_64
  {
    assert Pow16(4) == 0x1_0000;
    assert Pow16(8) == 0x1_0000_0000;
    assert Pow16(12) == 0x1_0000_0000_0000;
  }

  /** Two apps have the same generation exactly when the hash takes one value on what they are hashed by. */
  lemma GenerationsDifferExactly(digest: Digest, a: App, b: App)
    ensures AppGeneration(digest, a) == AppGeneration(digest, b) <==> digest(Identity(a)) == digest(Identity(b))
  {
    SixteenDigits();
    if AppGeneration(digest, a) == AppGeneration(digest, b) {
      HexInjective(digest(Identity(a)), digest(Identity(b)), 16);
    }
  }

  /** And apps are hashed alike exactly when they have the same name, the same resolved namespace, the same rows of
      labels and annotations, and the same in every other field. */
  lemma IdentityExactly(a: App, b: App)
    ensures Identity(a) == Identity(b) <==>
      && a.meta.name == b.meta.name
      && (if TrimSpace(a.meta.namespace) == "" then "default" else TrimSpace(a.meta.namespace))
         == (if TrimSpace(b.meta.namespace) == "" then "default" else TrimSpace(b.meta.namespace))
      && Entries(a.meta.labels) == Entries(b.meta.labels) && Entries(a.meta.annotations) == Entries(b.meta.annotations)
      && a.workloads == b.workloads && a.ingresses == b.ingresses && a.rest == b.rest
  {
  }
}
