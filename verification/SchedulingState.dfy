/** The replicated scheduling state and the effect of one log entry on it. */
module SchedulingState {
  import opened Common
  import opened GoStrings
  import opened DeployModel

  const MAX_REVISIONS := 10

  datatype Revision = Revision(generation: string, app: App)

  datatype State = State(
    applied: Word64,
    nodes: Table<NodeSnapshot>,
    apps: Table<App>,
    revisions: Table<seq<Revision>>,
    assignments: Table<Assignment>,
    bindings: Table<Binding>)

  function Init(): State { State(0, Nil, Nil, Nil, Nil, Nil) }

  /** A log entry after JSON decoding. `Ignored` covers undecodable entries, undecodable bodies and
      unknown command types, which count as applied and change nothing else. */
  datatype Command =
    | Empty
    | Ignored
    | UpsertNode(node: NodeSnapshot)
    | UpsertApp(app: App)
    | DeleteApp(meta: Metadata)
    | UpsertAssignment(assignment: Assignment)
    | UpsertBinding(binding: Binding)

  function Lookup<V>(t: Table<V>, key: string): Option<V> {
    if key in Entries(t) then Some(Entries(t)[key]) else None
  }

  function LastTen<T>(xs: seq<T>): (r: seq<T>)
    ensures |r| <= MAX_REVISIONS
  {
    if |xs| > MAX_REVISIONS then xs[|xs| - MAX_REVISIONS..] else xs
  }

  /** A revision list with `app` appended, unless it already ends with that generation. */
  function Extended(revs: seq<Revision>, generation: string, app: App): seq<Revision> {
    if |revs| > 0 && revs[|revs| - 1].generation == generation then revs
    else LastTen(revs + [Revision(generation, app)])
  }

  function Row<V>(t: Table<seq<V>>, key: string): seq<V> {
    if key in Entries(t) then Entries(t)[key] else []
  }

  function RevisionsAt(s: State, key: string): seq<Revision> { Row(s.revisions, key) }

  /** appendDeployAppRevisionLocked. */
  function AppendRevision(gen: Gen, t: Table<seq<Revision>>, key: string, app: App): Table<seq<Revision>> {
    if TrimSpace(gen(app)) == "" then t else Put(t, key, Extended(Row(t, key), gen(app), app))
  }

  function ApplyNode(s: State, node: NodeSnapshot): State {
    var id := TrimSpace(node.nodeId);
    if id == "" then s else s.(nodes := Put(s.nodes, id, node))
  }

  /** The revision table after an upsert of `app`: the replaced app is recorded when its generation differs. */
  function RevisionsAfter(gen: Gen, s: State, key: string, app: App): Table<seq<Revision>> {
    var current := Lookup(s.apps, key);
    if current.Some? && gen(current.value) != gen(app)
    then AppendRevision(gen, s.revisions, key, current.value)
    else s.revisions
  }

  function ApplyApp(gen: Gen, s: State, app: App): State {
    if TrimSpace(app.meta.name) == "" then s
    else
      var key := DeployAppMapKey(app.meta);
      s.(revisions := RevisionsAfter(gen, s, key, app), apps := Put(s.apps, key, app))
  }

  function ApplyDelete(s: State, meta: Metadata): State {
    if TrimSpace(meta.name) == "" then s
    else
      var key := DeployAppMapKey(meta);
      s.(apps := Drop(s.apps, key), revisions := Drop(s.revisions, key))
  }

  function NormalizeMeta(m: Metadata): Metadata {
    m.(name := TrimSpace(m.name), namespace := TrimSpace(m.namespace))
  }

  function NormalizeAssignment(a: Assignment): Option<Assignment> {
    var b := a.(key := TrimSpace(a.key), meta := NormalizeMeta(a.meta), workload := TrimSpace(a.workload),
                node := TrimSpace(a.node), address := TrimSpace(a.address), status := TrimSpace(a.status));
    if b.meta.name == "" || b.workload == "" then None
    else
      var c := if b.key == "" then b.(key := AssignmentKey(b.meta, b.workload)) else b;
      if c.key == "" then None else Some(c)
  }

  function NormalizeBinding(v: Binding): Option<Binding> {
    var b := v.(key := TrimSpace(v.key), meta := NormalizeMeta(v.meta), volume := TrimSpace(v.volume),
                workload := TrimSpace(v.workload), target := TrimSpace(v.target), node := TrimSpace(v.node),
                source := TrimSpace(v.source), status := TrimSpace(v.status));
    if b.meta.name == "" || b.workload == "" || b.volume == "" then None
    else
      var c := if b.key == "" then b.(key := BindingKey(b.meta, b.workload, b.volume)) else b;
      if c.key == "" then None else Some(c)
  }

  function ApplyAssignment(s: State, a: Assignment): State {
    match NormalizeAssignment(a)
    case None => s
    case Some(n) => s.(assignments := Put(s.assignments, n.key, n))
  }

  function ApplyBinding(s: State, b: Binding): State {
    match NormalizeBinding(b)
    case None => s
    case Some(n) => s.(bindings := Put(s.bindings, n.key, n))
  }

  /** One log entry: it is always counted, whatever it holds. */
  function Step(gen: Gen, s: State, c: Command): State {
    var t := s.(applied := Increment(s.applied));
    match c
    case Empty => t
    case Ignored => t
    case UpsertNode(node) => ApplyNode(t, node)
    case UpsertApp(app) => ApplyApp(gen, t, app)
    case DeleteApp(meta) => ApplyDelete(t, meta)
    case UpsertAssignment(a) => ApplyAssignment(t, a)
    case UpsertBinding(b) => ApplyBinding(t, b)
  }

  /** Whether the entry calls the deploy notification. */
  predicate Notifies(c: Command) {
    || (c.UpsertApp? && TrimSpace(c.app.meta.name) != "")
    || (c.DeleteApp? && TrimSpace(c.meta.name) != "")
  }

  function Replay(gen: Gen, s: State, log: seq<Command>): State
    decreases |log|
  {
    if log == [] then s else Step(gen, Replay(gen, s, log[..|log| - 1]), log[|log| - 1])
  }

  lemma {:induction false} ReplayAppend(gen: Gen, s: State, a: seq<Command>, b: seq<Command>)
    ensures Replay(gen, s, a + b) == Replay(gen, Replay(gen, s, a), b)
    decreases |b|
  {
    if b == [] {
      assert a + b == a;
    } else {
      var n := |b| - 1;
      assert (a + b)[..|a + b| - 1] == a + b[..n];
      ReplayAppend(gen, s, a, b[..n]);
    }
  }

  // ---- the keys of every reachable state ----

  ghost predicate KeyedNodes(m: map<string, NodeSnapshot>) {
    forall k | k in m :: k != "" && TrimSpace(k) == k && k == TrimSpace(m[k].nodeId)
  }

  ghost predicate KeyedAssignments(m: map<string, Assignment>) {
    forall k | k in m :: k != "" && TrimSpace(k) == k == m[k].key
  }

  ghost predicate KeyedBindings(m: map<string, Binding>) {
    forall k | k in m :: k != "" && TrimSpace(k) == k == m[k].key
  }

  ghost predicate WellKeyed(s: State) {
    KeyedNodes(Entries(s.nodes)) && KeyedAssignments(Entries(s.assignments)) && KeyedBindings(Entries(s.bindings))
  }

  lemma TrimmedJoin(a: string, b: string)
    requires a != "" && !IsSpace(a[0]) && b != "" && !IsSpace(b[|b| - 1])
    ensures TrimSpace(a + b) == a + b
  {
    assert (a + b)[0] == a[0] && (a + b)[|a + b| - 1] == b[|b| - 1];
  }

  lemma NamespaceTrimmed(ns: string)
    ensures var r := NamespaceOrDefault(ns); !IsSpace(r[0]) && !IsSpace(r[|r| - 1])
  {
    var d := "default";
    assert !IsSpace(d[0]) && !IsSpace(d[|d| - 1]);
  }

  lemma AssignmentKeyTrimmed(m: Metadata, workload: string)
    requires AssignmentKey(m, workload) != ""
    ensures TrimSpace(AssignmentKey(m, workload)) == AssignmentKey(m, workload)
  {
    var w := TrimSpace(workload);
    NamespaceTrimmed(m.namespace);
    var front := NamespaceOrDefault(m.namespace) + "/" + TrimSpace(m.name) + "/";
    assert AssignmentKey(m, workload) == front + w;
    TrimmedJoin(front, w);
  }

  lemma BindingKeyTrimmed(m: Metadata, workload: string, volume: string)
    requires BindingKey(m, workload, volume) != ""
    ensures TrimSpace(BindingKey(m, workload, volume)) == BindingKey(m, workload, volume)
  {
    var v := TrimSpace(volume);
    NamespaceTrimmed(m.namespace);
    var front := NamespaceOrDefault(m.namespace) + "/" + TrimSpace(m.name) + "/" + TrimSpace(workload) + "/";
    assert BindingKey(m, workload, volume) == front + v;
    TrimmedJoin(front, v);
  }

  lemma NormalizedAssignmentKey(a: Assignment)
    requires NormalizeAssignment(a).Some?
    ensures var k := NormalizeAssignment(a).value.key; k != "" && TrimSpace(k) == k
  {
    if TrimSpace(a.key) == "" {
      AssignmentKeyTrimmed(NormalizeMeta(a.meta), TrimSpace(a.workload));
    }
  }

  lemma NormalizedBindingKey(b: Binding)
    requires NormalizeBinding(b).Some?
    ensures var k := NormalizeBinding(b).value.key; k != "" && TrimSpace(k) == k
  {
    if TrimSpace(b.key) == "" {
      BindingKeyTrimmed(NormalizeMeta(b.meta), TrimSpace(b.workload), TrimSpace(b.volume));
    }
  }

  lemma ApplyNodeKeepsKeys(s: State, node: NodeSnapshot)
    requires WellKeyed(s)
    ensures WellKeyed(ApplyNode(s, node))
  {
    TrimSpaceIdempotent(node.nodeId);
  }

  lemma ApplyAssignmentKeepsKeys(s: State, a: Assignment)
    requires WellKeyed(s)
    ensures WellKeyed(ApplyAssignment(s, a))
  {
    match NormalizeAssignment(a)
    case None =>
    case Some(n) =>
      NormalizedAssignmentKey(a);
      assert KeyedAssignments(Entries(s.assignments)[n.key := n]);
  }

  lemma ApplyBindingKeepsKeys(s: State, b: Binding)
    requires WellKeyed(s)
    ensures WellKeyed(ApplyBinding(s, b))
  {
    match NormalizeBinding(b)
    case None =>
    case Some(n) =>
      NormalizedBindingKey(b);
      assert KeyedBindings(Entries(s.bindings)[n.key := n]);
  }

  lemma StepKeepsKeys(gen: Gen, s: State, c: Command)
    requires WellKeyed(s)
    ensures WellKeyed(Step(gen, s, c))
  {
    var t := s.(applied := Increment(s.applied));
    match c
    case UpsertNode(node) => ApplyNodeKeepsKeys(t, node);
    case UpsertAssignment(a) => ApplyAssignmentKeepsKeys(t, a);
    case UpsertBinding(b) => ApplyBindingKeepsKeys(t, b);
    case _ =>
  }

  /** In every reachable state each node, assignment and binding is stored under a trimmed, non-empty key
      that its own value names. */
  lemma {:induction false} ReachableKeys(gen: Gen, log: seq<Command>)
    ensures WellKeyed(Replay(gen, Init(), log))
    decreases |log|
  {
    if log != [] {
      ReachableKeys(gen, log[..|log| - 1]);
      StepKeepsKeys(gen, Replay(gen, Init(), log[..|log| - 1]), log[|log| - 1]);
    }
  }

  /** Any stored assignment or binding is found again by its own key, trimmed as the lookups trim it. */
  lemma StoredRecordsAreFound(gen: Gen, log: seq<Command>, k: string)
    ensures var s := Replay(gen, Init(), log);
      && (k in Entries(s.assignments) ==>
            Lookup(s.assignments, TrimSpace(Entries(s.assignments)[k].key)) == Some(Entries(s.assignments)[k]))
      && (k in Entries(s.bindings) ==>
            Lookup(s.bindings, TrimSpace(Entries(s.bindings)[k].key)) == Some(Entries(s.bindings)[k]))
  {
    ReachableKeys(gen, log);
  }
}
