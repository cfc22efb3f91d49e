/** Snapshot and restore of the replicated state, at any points of any run. */
module Snapshots {
  import opened Common
  import opened GoStrings
  import opened DeployModel
  import opened SchedulingState

  // ---- the snapshot document ----

  /** The JSON document: a table that is nil or empty is left out. */
  datatype Document = Document(
    applied: Word64,
    nodes: Option<map<string, NodeSnapshot>>,
    apps: Option<map<string, App>>,
    revisions: Option<map<string, seq<Revision>>>,
    assignments: Option<map<string, Assignment>>,
    bindings: Option<map<string, Binding>>)

  function MapRows<V, W>(f: V -> W, m: map<string, V>): (r: map<string, W>)
    ensures r.Keys == m.Keys && forall k | k in m :: r[k] == f(m[k])
  {
    map k | k in m :: f(m[k])
  }

  function Written<V>(f: V -> V, t: Table<V>): Option<map<string, V>> {
    if Entries(t) == map[] then None else Some(MapRows(f, Entries(t)))
  }

  function Read<V>(m: Option<map<string, V>>): Table<V> {
    match m
    case None => Nil
    case Some(rows) => Rows(rows)
  }

  function CanonNode(n: NodeSnapshot): NodeSnapshot { n }

  function CanonRevision(r: Revision): Revision { r.(app := CanonApp(r.app)) }

  function CanonRevisions(rs: seq<Revision>): (r: seq<Revision>)
    ensures |r| == |rs| && forall i | 0 <= i < |rs| :: r[i] == CanonRevision(rs[i])
  {
    seq(|rs|, i requires 0 <= i < |rs| => CanonRevision(rs[i]))
  }

  /** SaveSnapshot. */
  function Save(s: State): Document {
    Document(s.applied, Written(CanonNode, s.nodes), Written(CanonApp, s.apps), Written(CanonRevisions, s.revisions),
             Written(CanonAssignment, s.assignments), Written(CanonBinding, s.bindings))
  }

  function Load(d: Document): State {
    State(d.applied, Read(d.nodes), Read(d.apps), Read(d.revisions), Read(d.assignments), Read(d.bindings))
  }

  // ---- equal up to nil and empty ----

  ghost predicate Agree<V>(f: V -> V, a: Table<V>, b: Table<V>) {
    && Entries(a).Keys == Entries(b).Keys
    && forall k | k in Entries(a) :: f(Entries(a)[k]) == f(Entries(b)[k])
  }

  /** Two states that differ only in which empty tables are nil, at the top or inside a record's metadata. */
  ghost predicate Equiv(s: State, t: State) {
    && s.applied == t.applied
    && Agree(CanonNode, s.nodes, t.nodes)
    && Agree(CanonApp, s.apps, t.apps)
    && Agree(CanonRevisions, s.revisions, t.revisions)
    && Agree(CanonAssignment, s.assignments, t.assignments)
    && Agree(CanonBinding, s.bindings, t.bindings)
  }

  lemma WrittenAgrees<V>(f: V -> V, t: Table<V>)
    requires forall v: V :: f(f(v)) == f(v)
    ensures Agree(f, Read(Written(f, t)), t)
  {
  }

  lemma RevisionsIdempotent(rs: seq<Revision>)
    ensures CanonRevisions(CanonRevisions(rs)) == CanonRevisions(rs)
  {
    forall i | 0 <= i < |rs|
      ensures CanonRevisions(CanonRevisions(rs))[i] == CanonRevisions(rs)[i]
    {
      CanonIdempotent(rs[i].app);
    }
  }

  /** A restored state agrees with the state that was saved. */
  lemma RestoreAgrees(s: State)
    ensures Equiv(Load(Save(s)), s)
  {
    forall a: App ensures CanonApp(CanonApp(a)) == CanonApp(a) { CanonIdempotent(a); }
    forall rs: seq<Revision> ensures CanonRevisions(CanonRevisions(rs)) == CanonRevisions(rs) { RevisionsIdempotent(rs); }
    forall a: Assignment ensures CanonAssignment(CanonAssignment(a)) == CanonAssignment(a) { MetaIdempotent(a.meta); }
    forall b: Binding ensures CanonBinding(CanonBinding(b)) == CanonBinding(b) { MetaIdempotent(b.meta); }
    WrittenAgrees(CanonNode, s.nodes);
    WrittenAgrees(CanonApp, s.apps);
    WrittenAgrees(CanonRevisions, s.revisions);
    WrittenAgrees(CanonAssignment, s.assignments);
    WrittenAgrees(CanonBinding, s.bindings);
  }

  lemma MetaIdempotent(m: Metadata)
    ensures CanonMeta(CanonMeta(m)) == CanonMeta(m)
  {
  }

  // ---- what agreement means, field by field ----

  ghost predicate SameMeta(m: Metadata, n: Metadata) {
    && m.name == n.name && m.namespace == n.namespace
    && Entries(m.labels) == Entries(n.labels) && Entries(m.annotations) == Entries(n.annotations)
  }

  ghost predicate SameApp(a: App, b: App) {
    SameMeta(a.meta, b.meta) && a.workloads == b.workloads && a.ingresses == b.ingresses && a.rest == b.rest
  }

  ghost predicate SameRevisions(a: seq<Revision>, b: seq<Revision>) {
    |a| == |b| && forall i | 0 <= i < |a| :: a[i].generation == b[i].generation && SameApp(a[i].app, b[i].app)
  }

  ghost predicate SameAssignment(a: Assignment, b: Assignment) {
    && SameMeta(a.meta, b.meta) && a.key == b.key && a.workload == b.workload && a.node == b.node
    && a.address == b.address && a.status == b.status && a.generation == b.generation && a.error == b.error
    && a.rest == b.rest
  }

  ghost predicate SameBinding(a: Binding, b: Binding) {
    && SameMeta(a.meta, b.meta) && a.key == b.key && a.volume == b.volume && a.workload == b.workload
    && a.target == b.target && a.node == b.node && a.source == b.source && a.status == b.status && a.rest == b.rest
  }

  /** The same answer to a lookup, up to a relation on records. */
  ghost predicate SameAnswer<V(!new)>(same: (V, V) -> bool, a: Option<V>, b: Option<V>) {
    if a.None? then b.None? else b.Some? && same(a.value, b.value)
  }

  /** The same rows in all five tables. Records may differ only in whether an empty label or annotation table is nil,
      tables only in whether an empty one is nil. */
  ghost predicate SameRows(s: State, t: State) {
    && s.applied == t.applied
    && Entries(s.nodes) == Entries(t.nodes)
    && (forall k :: SameAnswer((a, b) => SameApp(a, b), Lookup(s.apps, k), Lookup(t.apps, k)))
    && (forall k :: SameRevisions(RevisionsAt(s, k), RevisionsAt(t, k)))
    && (forall k :: SameAnswer((a, b) => SameAssignment(a, b), Lookup(s.assignments, k), Lookup(t.assignments, k)))
    && (forall k :: SameAnswer((a, b) => SameBinding(a, b), Lookup(s.bindings, k), Lookup(t.bindings, k)))
  }

  lemma CanonMetaMeans(m: Metadata, n: Metadata)
    ensures CanonMeta(m) == CanonMeta(n) <==> SameMeta(m, n)
  {
  }

  lemma CanonAppMeans(a: App, b: App)
    ensures CanonApp(a) == CanonApp(b) <==> SameApp(a, b)
  {
    CanonMetaMeans(a.meta, b.meta);
  }

  lemma CanonAssignmentMeans(a: Assignment, b: Assignment)
    ensures CanonAssignment(a) == CanonAssignment(b) <==> SameAssignment(a, b)
  {
    CanonMetaMeans(a.meta, b.meta);
  }

  lemma CanonBindingMeans(a: Binding, b: Binding)
    ensures CanonBinding(a) == CanonBinding(b) <==> SameBinding(a, b)
  {
    CanonMetaMeans(a.meta, b.meta);
  }

  lemma CanonRevisionsMean(a: seq<Revision>, b: seq<Revision>)
    requires CanonRevisions(a) == CanonRevisions(b)
    ensures SameRevisions(a, b)
  {
    assert |a| == |CanonRevisions(a)| == |CanonRevisions(b)| == |b|;
    forall i | 0 <= i < |a| ensures a[i].generation == b[i].generation && SameApp(a[i].app, b[i].app) {
      assert CanonRevisions(a)[i] == CanonRevisions(b)[i];
      CanonAppMeans(a[i].app, b[i].app);
    }
  }

  /** Agreeing states hold the same rows. */
  lemma EquivMeans(s: State, t: State)
    requires Equiv(s, t)
    ensures SameRows(s, t)
  {
    assert Entries(s.nodes) == Entries(t.nodes);
    forall k ensures SameAnswer((a, b) => SameApp(a, b), Lookup(s.apps, k), Lookup(t.apps, k)) {
      if k in Entries(s.apps) { CanonAppMeans(Entries(s.apps)[k], Entries(t.apps)[k]); }
    }
    forall k ensures SameRevisions(RevisionsAt(s, k), RevisionsAt(t, k)) {
      assert k in Entries(s.revisions) <==> k in Entries(t.revisions);
      CanonRevisionsMean(RevisionsAt(s, k), RevisionsAt(t, k));
    }
    forall k ensures SameAnswer((a, b) => SameAssignment(a, b), Lookup(s.assignments, k), Lookup(t.assignments, k)) {
      if k in Entries(s.assignments) { CanonAssignmentMeans(Entries(s.assignments)[k], Entries(t.assignments)[k]); }
    }
    forall k ensures SameAnswer((a, b) => SameBinding(a, b), Lookup(s.bindings, k), Lookup(t.bindings, k)) {
      if k in Entries(s.bindings) { CanonBindingMeans(Entries(s.bindings)[k], Entries(t.bindings)[k]); }
    }
  }

  /** What is restored has the saved rows, field by field. */
  lemma RestoredRowsAreSaved(s: State)
    ensures SameRows(Load(Save(s)), s)
  {
    RestoreAgrees(s);
    EquivMeans(Load(Save(s)), s);
  }

  // ---- every entry respects the equivalence ----

  lemma LastTenCanon(a: seq<Revision>, b: seq<Revision>, x: Revision, y: Revision)
    requires CanonRevisions(a) == CanonRevisions(b) && CanonRevision(x) == CanonRevision(y)
    ensures CanonRevisions(LastTen(a + [x])) == CanonRevisions(LastTen(b + [y]))
  {
    assert |a| == |CanonRevisions(a)| == |CanonRevisions(b)| == |b|;
    var p, q := a + [x], b + [y];
    forall i | 0 <= i < |p| ensures CanonRevision(p[i]) == CanonRevision(q[i]) {
      if i < |a| { assert CanonRevisions(a)[i] == CanonRevisions(b)[i]; }
    }
  }

  lemma PutAgrees<V>(f: V -> V, a: Table<V>, b: Table<V>, key: string, v: V, w: V)
    requires Agree(f, a, b) && f(v) == f(w)
    ensures Agree(f, Put(a, key, v), Put(b, key, w))
  {
  }

  lemma SameLength(a: seq<Revision>, b: seq<Revision>)
    requires CanonRevisions(a) == CanonRevisions(b)
    ensures |a| == |b| && forall i | 0 <= i < |a| :: a[i].generation == b[i].generation
  {
    assert |a| == |CanonRevisions(a)|;
    forall i | 0 <= i < |a| ensures a[i].generation == b[i].generation {
      assert CanonRevisions(a)[i] == CanonRevisions(b)[i];
    }
  }

  lemma ExtendedAgrees(a: seq<Revision>, b: seq<Revision>, g: string, x: App, y: App)
    requires CanonRevisions(a) == CanonRevisions(b) && CanonApp(x) == CanonApp(y)
    ensures CanonRevisions(Extended(a, g, x)) == CanonRevisions(Extended(b, g, y))
  {
    SameLength(a, b);
    LastTenCanon(a, b, Revision(g, x), Revision(g, y));
  }

  lemma AppendAgrees(gen: Gen, a: Table<seq<Revision>>, b: Table<seq<Revision>>, key: string, x: App, y: App)
    requires Sound(gen) && Agree(CanonRevisions, a, b) && CanonApp(x) == CanonApp(y)
    ensures Agree(CanonRevisions, AppendRevision(gen, a, key, x), AppendRevision(gen, b, key, y))
  {
    var ra, rb := Row(a, key), Row(b, key);
    assert CanonRevisions(ra) == CanonRevisions(rb);
    ExtendedAgrees(ra, rb, gen(x), x, y);
    PutAgrees(CanonRevisions, a, b, key, Extended(ra, gen(x), x), Extended(rb, gen(x), y));
  }

  lemma ApplyAppAgrees(gen: Gen, s: State, t: State, app: App)
    requires Sound(gen) && Equiv(s, t)
    ensures Equiv(ApplyApp(gen, s, app), ApplyApp(gen, t, app))
  {
    if TrimSpace(app.meta.name) != "" {
      var key := DeployAppMapKey(app.meta);
      PutAgrees(CanonApp, s.apps, t.apps, key, app, app);
      if key in Entries(s.apps) {
        var x, y := Entries(s.apps)[key], Entries(t.apps)[key];
        assert gen(x) == gen(y);
        AppendAgrees(gen, s.revisions, t.revisions, key, x, y);
      }
      assert Agree(CanonRevisions, RevisionsAfter(gen, s, key, app), RevisionsAfter(gen, t, key, app));
    }
  }

  lemma DropAgrees<V>(f: V -> V, a: Table<V>, b: Table<V>, key: string)
    requires Agree(f, a, b)
    ensures Agree(f, Drop(a, key), Drop(b, key))
  {
  }

  lemma ApplyNodeAgrees(s: State, t: State, node: NodeSnapshot)
    requires Equiv(s, t)
    ensures Equiv(ApplyNode(s, node), ApplyNode(t, node))
  {
    PutAgrees(CanonNode, s.nodes, t.nodes, TrimSpace(node.nodeId), node, node);
  }

  lemma ApplyDeleteAgrees(s: State, t: State, meta: Metadata)
    requires Equiv(s, t)
    ensures Equiv(ApplyDelete(s, meta), ApplyDelete(t, meta))
  {
    var key := DeployAppMapKey(meta);
    DropAgrees(CanonApp, s.apps, t.apps, key);
    DropAgrees(CanonRevisions, s.revisions, t.revisions, key);
  }

  lemma ApplyAssignmentAgrees(s: State, t: State, a: Assignment)
    requires Equiv(s, t)
    ensures Equiv(ApplyAssignment(s, a), ApplyAssignment(t, a))
  {
    var n := NormalizeAssignment(a);
    if n.Some? { PutAgrees(CanonAssignment, s.assignments, t.assignments, n.value.key, n.value, n.value); }
  }

  lemma ApplyBindingAgrees(s: State, t: State, b: Binding)
    requires Equiv(s, t)
    ensures Equiv(ApplyBinding(s, b), ApplyBinding(t, b))
  {
    var n := NormalizeBinding(b);
    if n.Some? { PutAgrees(CanonBinding, s.bindings, t.bindings, n.value.key, n.value, n.value); }
  }

  /** Every log entry maps equivalent states to equivalent states: nil and empty tables are told apart by
      no command. */
  lemma StepAgrees(gen: Gen, s: State, t: State, c: Command)
    requires Sound(gen) && Equiv(s, t)
    ensures Equiv(Step(gen, s, c), Step(gen, t, c))
  {
    var s', t' := s.(applied := Increment(s.applied)), t.(applied := Increment(t.applied));
    assert Equiv(s', t');
    match c
    case UpsertApp(app) => ApplyAppAgrees(gen, s', t', app);
    case UpsertNode(node) => ApplyNodeAgrees(s', t', node);
    case DeleteApp(meta) => ApplyDeleteAgrees(s', t', meta);
    case UpsertAssignment(a) => ApplyAssignmentAgrees(s', t', a);
    case UpsertBinding(b) => ApplyBindingAgrees(s', t', b);
    case _ =>
  }

  // ---- runs with restores ----

  /** How a replica came to be where it is in the agreed log: it started empty, applied the next entry, was rebuilt
      from its own snapshot, or installed the snapshot of a replica with a life of its own. */
  datatype Life =
    | Fresh
    | Applied(before: Life)
    | Rebuilt(before: Life)
    | Installed(before: Life, donor: Life)

  /** How many entries of the log the replica's state reflects. */
  function Position(life: Life): nat {
    match life
    case Fresh => 0
    case Applied(before) => Position(before) + 1
    case Rebuilt(before) => Position(before)
    case Installed(_, donor) => Position(donor)
  }

  /** Every entry applied along the way, by the replica or by a donor, is in the log. */
  predicate Lived(log: seq<Command>, life: Life) {
    match life
    case Fresh => true
    case Applied(before) => Lived(log, before) && Position(before) < |log|
    case Rebuilt(before) => Lived(log, before)
    case Installed(before, donor) => Lived(log, before) && Lived(log, donor)
  }

  function Live(gen: Gen, log: seq<Command>, life: Life): State
    requires Lived(log, life)
  {
    match life
    case Fresh => Init()
    case Applied(before) => Step(gen, Live(gen, log, before), log[Position(before)])
    case Rebuilt(before) => Load(Save(Live(gen, log, before)))
    case Installed(_, donor) => Load(Save(Live(gen, log, donor)))
  }

  lemma {:induction false} PositionInLog(log: seq<Command>, life: Life)
    requires Lived(log, life)
    ensures Position(life) <= |log|
  {
    match life
    case Installed(_, donor) => PositionInLog(log, donor);
    case Rebuilt(before) => PositionInLog(log, before);
    case _ =>
  }

  /** However a replica came to its place in the log, through any number of restores of its own snapshots and of
      other replicas' ones, it agrees with a replica that replays the log up to there. */
  lemma RebuiltReplicaAgrees(gen: Gen, log: seq<Command>, life: Life)
    requires Sound(gen) && Lived(log, life)
    ensures Position(life) <= |log|
    ensures var s, t := Live(gen, log, life), Replay(gen, Init(), log[..Position(life)]);
      Equiv(s, t) && SameRows(s, t)
  {
    RebuiltReplicaEquiv(gen, log, life);
    EquivMeans(Live(gen, log, life), Replay(gen, Init(), log[..Position(life)]));
  }

  lemma {:induction false} RebuiltReplicaEquiv(gen: Gen, log: seq<Command>, life: Life)
    requires Sound(gen) && Lived(log, life)
    ensures Position(life) <= |log|
    ensures Equiv(Live(gen, log, life), Replay(gen, Init(), log[..Position(life)]))
  {
    PositionInLog(log, life);
    match life
    case Fresh =>
    case Applied(before) =>
      var n := Position(before);
      RebuiltReplicaEquiv(gen, log, before);
      StepAgrees(gen, Live(gen, log, before), Replay(gen, Init(), log[..n]), log[n]);
      assert log[..n + 1][..n] == log[..n];
    case Rebuilt(before) =>
      RebuiltReplicaEquiv(gen, log, before);
      RestoreAgrees(Live(gen, log, before));
    case Installed(_, donor) =>
      RebuiltReplicaEquiv(gen, log, donor);
      RestoreAgrees(Live(gen, log, donor));
  }

  /** The two-part form: a snapshot of any prefix, restored and followed by the rest of the log. */
  lemma {:induction false} SnapshotThenReplay(gen: Gen, log: seq<Command>, cut: nat)
    requires Sound(gen) && cut <= |log|
    ensures var restored, whole :=
        Replay(gen, Load(Save(Replay(gen, Init(), log[..cut]))), log[cut..]), Replay(gen, Init(), log);
      Equiv(restored, whole) && SameRows(restored, whole)
  {
    var prefix, rest := log[..cut], log[cut..];
    assert prefix + rest == log;
    ReplayAppend(gen, Init(), prefix, rest);
    RestoreThenReplay(gen, Replay(gen, Init(), prefix), rest);
    EquivMeans(Replay(gen, Load(Save(Replay(gen, Init(), prefix))), rest), Replay(gen, Init(), log));
  }

  lemma {:induction false} RestoreThenReplay(gen: Gen, s: State, log: seq<Command>)
    requires Sound(gen)
    ensures Equiv(Replay(gen, Load(Save(s)), log), Replay(gen, s, log))
  {
    RestoreAgrees(s);
    ReplayAgrees(gen, Load(Save(s)), s, log);
  }

  lemma {:induction false} ReplayAgrees(gen: Gen, s: State, t: State, log: seq<Command>)
    requires Sound(gen) && Equiv(s, t)
    ensures Equiv(Replay(gen, s, log), Replay(gen, t, log))
    decreases |log|
  {
    if log != [] {
      var before := log[..|log| - 1];
      ReplayAgrees(gen, s, t, before);
      StepAgrees(gen, Replay(gen, s, before), Replay(gen, t, before), log[|log| - 1]);
    }
  }

  /** Agreeing states answer every lookup alike: the same keys are present, the same revisions are recorded in the
      same order, and every field of every record is the same, except that an empty label or annotation table may
      be nil in one and not in the other. */
  lemma LookupsAgree(s: State, t: State, key: string)
    requires Equiv(s, t)
    ensures Lookup(s.nodes, key) == Lookup(t.nodes, key)
    ensures SameAnswer((a, b) => SameApp(a, b), Lookup(s.apps, key), Lookup(t.apps, key))
    ensures SameRevisions(RevisionsAt(s, key), RevisionsAt(t, key))
    ensures SameAnswer((a, b) => SameAssignment(a, b), Lookup(s.assignments, key), Lookup(t.assignments, key))
    ensures SameAnswer((a, b) => SameBinding(a, b), Lookup(s.bindings, key), Lookup(t.bindings, key))
  {
    EquivMeans(s, t);
  }
}
