/** The stored nodes, assignments and bindings, related to the log that produced them. */
module RecordHistory {
  import opened Common
  import opened GoStrings
  import opened DeployModel
  import opened SchedulingState

  /** The last value that some entry of the log names under a key. */
  function LastNamed<T>(log: seq<Command>, named: Command -> Option<(string, T)>, k: string): Option<T> {
    if log == [] then None
    else
      var last := named(log[|log| - 1]);
      if last.Some? && last.value.0 == k then Some(last.value.1) else LastNamed(log[..|log| - 1], named, k)
  }

  // ---- what an entry asks to be stored, and under which key ----

  function NamedNode(): Command -> Option<(string, NodeSnapshot)> {
    (c: Command) =>
      if c.UpsertNode? && TrimSpace(c.node.nodeId) != "" then Some((TrimSpace(c.node.nodeId), c.node)) else None
  }

  /** The namespace that stands in a derived key. */
  function KeyNamespace(m: Metadata): string { if TrimSpace(m.namespace) == "" then "default" else TrimSpace(m.namespace) }

  /** The given key, trimmed, or namespace, app and workload joined by slashes when that is blank. An entry
      without an app or a workload names nothing. */
  function NamedAssignment(): Command -> Option<(string, Assignment)> {
    (c: Command) =>
      if !c.UpsertAssignment? then None
      else
        var a := c.assignment;
        var app, workload := TrimSpace(a.meta.name), TrimSpace(a.workload);
        if app == "" || workload == "" then None
        else
          var derived := KeyNamespace(a.meta) + "/" + app + "/" + workload;
          Some((if TrimSpace(a.key) != "" then TrimSpace(a.key) else derived, a))
  }

  function NamedBinding(): Command -> Option<(string, Binding)> {
    (c: Command) =>
      if !c.UpsertBinding? then None
      else
        var b := c.binding;
        var app, workload, volume := TrimSpace(b.meta.name), TrimSpace(b.workload), TrimSpace(b.volume);
        if app == "" || workload == "" || volume == "" then None
        else
          var derived := KeyNamespace(b.meta) + "/" + app + "/" + workload + "/" + volume;
          Some((if TrimSpace(b.key) != "" then TrimSpace(b.key) else derived, b))
  }

  ghost predicate StoredMeta(m: Metadata, r: Metadata) {
    && r.name == TrimSpace(m.name) && r.namespace == TrimSpace(m.namespace)
    && r.labels == m.labels && r.annotations == m.annotations
  }

  /** The row that an entry leaves: its own fields, trimmed where they are texts that identify something. */
  ghost predicate StoredAssignment(k: string, a: Assignment, r: Assignment) {
    && r.key == k && StoredMeta(a.meta, r.meta)
    && r.workload == TrimSpace(a.workload) && r.node == TrimSpace(a.node)
    && r.address == TrimSpace(a.address) && r.status == TrimSpace(a.status)
    && r.generation == a.generation && r.error == a.error && r.rest == a.rest
  }

  ghost predicate StoredBinding(k: string, b: Binding, r: Binding) {
    && r.key == k && StoredMeta(b.meta, r.meta)
    && r.volume == TrimSpace(b.volume) && r.workload == TrimSpace(b.workload) && r.target == TrimSpace(b.target)
    && r.node == TrimSpace(b.node) && r.source == TrimSpace(b.source) && r.status == TrimSpace(b.status)
    && r.rest == b.rest
  }

  // ---- one entry ----

  lemma AssignmentEffect(a: Assignment)
    ensures var named, stored := NamedAssignment()(UpsertAssignment(a)), NormalizeAssignment(a);
      && (stored.Some? <==> named.Some?)
      && (stored.Some? ==> StoredAssignment(named.value.0, named.value.1, stored.value))
  {
    TrimSpaceIdempotent(a.meta.name);
    TrimSpaceIdempotent(a.meta.namespace);
    TrimSpaceIdempotent(a.workload);
  }

  lemma BindingEffect(b: Binding)
    ensures var named, stored := NamedBinding()(UpsertBinding(b)), NormalizeBinding(b);
      && (stored.Some? <==> named.Some?)
      && (stored.Some? ==> StoredBinding(named.value.0, named.value.1, stored.value))
  {
    TrimSpaceIdempotent(b.meta.name);
    TrimSpaceIdempotent(b.meta.namespace);
    TrimSpaceIdempotent(b.workload);
    TrimSpaceIdempotent(b.volume);
  }

  // ---- every log ----

  /** On every log, the snapshot stored under a node id is the one of the last entry for that trimmed id. */
  lemma {:induction false} NodesAreLatest(gen: Gen, log: seq<Command>, k: string)
    ensures Lookup(Replay(gen, Init(), log).nodes, k) == LastNamed(log, NamedNode(), k)
    decreases |log|
  {
    if log != [] {
      NodesAreLatest(gen, log[..|log| - 1], k);
      NodeStep(gen, Replay(gen, Init(), log[..|log| - 1]), log[|log| - 1], k);
    }
  }

  lemma NodeStep(gen: Gen, s: State, c: Command, k: string)
    ensures var named := NamedNode()(c);
      Lookup(Step(gen, s, c).nodes, k) ==
        if named.Some? && named.value.0 == k then Some(named.value.1) else Lookup(s.nodes, k)
  {
  }

  /** On every log, the row under a key is the one that the last entry for that key leaves, and there is none if no
      entry names the key. */
  lemma {:induction false} AssignmentsAreLatest(gen: Gen, log: seq<Command>, k: string)
    ensures var row, entry := Lookup(Replay(gen, Init(), log).assignments, k), LastNamed(log, NamedAssignment(), k);
      (row.Some? <==> entry.Some?) && (row.Some? ==> StoredAssignment(k, entry.value, row.value))
    decreases |log|
  {
    if log != [] {
      AssignmentsAreLatest(gen, log[..|log| - 1], k);
      AssignmentStep(gen, Replay(gen, Init(), log[..|log| - 1]), log[|log| - 1], k);
    }
  }

  lemma AssignmentStep(gen: Gen, s: State, c: Command, k: string)
    ensures var named, row := NamedAssignment()(c), Lookup(Step(gen, s, c).assignments, k);
      if named.Some? && named.value.0 == k then row.Some? && StoredAssignment(k, named.value.1, row.value)
      else row == Lookup(s.assignments, k)
  {
    if c.UpsertAssignment? { AssignmentEffect(c.assignment); }
  }

  lemma {:induction false} BindingsAreLatest(gen: Gen, log: seq<Command>, k: string)
    ensures var row, entry := Lookup(Replay(gen, Init(), log).bindings, k), LastNamed(log, NamedBinding(), k);
      (row.Some? <==> entry.Some?) && (row.Some? ==> StoredBinding(k, entry.value, row.value))
    decreases |log|
  {
    if log != [] {
      BindingsAreLatest(gen, log[..|log| - 1], k);
      BindingStep(gen, Replay(gen, Init(), log[..|log| - 1]), log[|log| - 1], k);
    }
  }

  lemma BindingStep(gen: Gen, s: State, c: Command, k: string)
    ensures var named, row := NamedBinding()(c), Lookup(Step(gen, s, c).bindings, k);
      if named.Some? && named.value.0 == k then row.Some? && StoredBinding(k, named.value.1, row.value)
      else row == Lookup(s.bindings, k)
  {
    if c.UpsertBinding? { BindingEffect(c.binding); }
  }

  /** Every entry is counted, whatever it holds, and the count wraps. */
  lemma {:induction false} EveryEntryIsCounted(gen: Gen, log: seq<Command>)
    ensures Replay(gen, Init(), log).applied == |log| % TWO_TO_THE_64
    decreases |log|
  {
    if log != [] {
      EveryEntryIsCounted(gen, log[..|log| - 1]);
      CountStep(gen, Replay(gen, Init(), log[..|log| - 1]), log[|log| - 1]);
      NextCount(|log| - 1);
    }
  }

  lemma NextCount(n: nat)
    ensures (n % TWO_TO_THE_64 + 1) % TWO_TO_THE_64 == (n + 1) % TWO_TO_THE_64
  {
  }

  lemma CountStep(gen: Gen, s: State, c: Command)
    ensures Step(gen, s, c).applied == (s.applied + 1) % TWO_TO_THE_64
  {
    var t := s.(applied := Increment(s.applied));
    match c
    case UpsertApp(app) => AppKeepsCount(gen, t, app);
    case UpsertAssignment(a) => AssignmentKeepsCount(t, a);
    case UpsertBinding(b) => BindingKeepsCount(t, b);
    case _ =>
  }

  lemma AppKeepsCount(gen: Gen, s: State, app: App)
    ensures ApplyApp(gen, s, app).applied == s.applied
  {
  }

  lemma AssignmentKeepsCount(s: State, a: Assignment)
    ensures ApplyAssignment(s, a).applied == s.applied
  {
  }

  lemma BindingKeepsCount(s: State, b: Binding)
    ensures ApplyBinding(s, b).applied == s.applied
  {
  }
}
