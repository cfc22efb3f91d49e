/** The state machine object: its tables are updated in place, one log entry at a time. */
module SchedulingFsm {
  import opened Common
  import opened GoStrings
  import opened DeployModel
  import opened Ordering
  import opened SchedulingState
  import Snapshots

  /** What RecoverFromSnapshot reads: nothing, bytes that do not parse, or a document. */
  datatype Bytes = NoBytes | Garbled | Holds(document: Snapshots.Document)

  /** `order` lists the keys of `m` once each, and `out` their values in that order. */
  ghost predicate Enumerates<V>(m: map<string, V>, out: seq<V>, order: seq<string>) {
    && Distinct(order) && Elements(order) == m.Keys
    && |out| == |order| && forall i | 0 <= i < |out| :: order[i] in m && out[i] == m[order[i]]
  }

  /** A `range` over a Go map, whose order is unspecified. */
  method ListRows<V>(m: map<string, V>) returns (out: seq<V>, ghost order: seq<string>)
    ensures Enumerates(m, out, order)
    ensures |out| == |m| && forall k | k in m :: m[k] in out
  {
    out, order := [], [];
    var left := m.Keys;
    while left != {}
      invariant left <= m.Keys
      invariant Distinct(order) && Elements(order) == m.Keys - left
      invariant |out| == |order| && forall i | 0 <= i < |out| :: order[i] in m && out[i] == m[order[i]]
      invariant |out| + |left| == |m|
      decreases |left|
    {
      var k :| k in left;
      assert forall i | 0 <= i < |order| :: order[i] in Elements(order);
      ghost var was := order;
      out, order, left := out + [m[k]], order + [k], left - {k};
      assert Elements(order) == Elements(was) + {k};
    }
    EnumeratesAll(m, out, order);
  }

  lemma EnumeratesAll<V>(m: map<string, V>, out: seq<V>, order: seq<string>)
    requires Enumerates(m, out, order)
    ensures forall k | k in m :: m[k] in out
  {
    forall k | k in m ensures m[k] in out {
      assert k in Elements(order);
      var i :| 0 <= i < |order| && order[i] == k;
      assert out[i] == m[k];
    }
  }

  class Fsm {
    const gen: Gen
    var applied: Word64
    var nodes: Table<NodeSnapshot>
    var apps: Table<App>
    var revisions: Table<seq<Revision>>
    var assignments: Table<Assignment>
    var bindings: Table<Binding>
    var wakeups: nat  // calls of notifyDeploy

    function View(): State
      reads this
    {
      State(applied, nodes, apps, revisions, assignments, bindings)
    }

    constructor (gen: Gen)
      ensures this.gen == gen && View() == Init() && wakeups == 0
    {
      this.gen := gen;
      applied, wakeups := 0, 0;
      nodes, apps, revisions, assignments, bindings := Nil, Nil, Nil, Nil, Nil;
    }

    /** Update: the entry takes the abstract step, and its result is the new entry count. */
    method Update(c: Command) returns (value: Word64)
      modifies this
      ensures View() == Step(gen, old(View()), c)
      ensures value == applied
      ensures wakeups == old(wakeups) + if Notifies(c) then 1 else 0
    {
      applied := Increment(applied);
      match c {
        case Empty =>
        case Ignored =>
        case UpsertNode(node) => ApplyNodeCapacity(node);
        case UpsertApp(app) => ApplyDeployApp(app);
        case DeleteApp(meta) => ApplyDeleteDeployApp(meta);
        case UpsertAssignment(a) => ApplyWorkloadAssignment(a);
        case UpsertBinding(b) => ApplyVolumeBinding(b);
      }
      value := applied;
    }

    method ApplyNodeCapacity(node: NodeSnapshot)
      modifies this`nodes
      ensures View() == ApplyNode(old(View()), node)
    {
      var id := TrimSpace(node.nodeId);
      if id == "" { return; }
      if nodes.Nil? { nodes := Rows(map[]); }
      nodes := Rows(nodes.rows[id := node]);
    }

    method ApplyDeployApp(app: App)
      modifies this`apps, this`revisions, this`wakeups
      ensures View() == ApplyApp(gen, old(View()), app)
      ensures wakeups == old(wakeups) + if TrimSpace(app.meta.name) != "" then 1 else 0
    {
      if TrimSpace(app.meta.name) == "" { return; }
      if apps.Nil? { apps := Rows(map[]); }
      var key := DeployAppMapKey(app.meta);
      if key in apps.rows && gen(apps.rows[key]) != gen(app) {
        AppendDeployAppRevision(key, apps.rows[key]);
      }
      apps := Rows(apps.rows[key := app]);
      wakeups := wakeups + 1;
    }

    method AppendDeployAppRevision(key: string, app: App)
      modifies this`revisions
      ensures revisions == AppendRevision(gen, old(revisions), key, app)
    {
      var generation := gen(app);
      if TrimSpace(generation) == "" { return; }
      if revisions.Nil? { revisions := Rows(map[]); }
      var revs := if key in revisions.rows then revisions.rows[key] else [];
      if |revs| > 0 && revs[|revs| - 1].generation == generation {
        assert revisions.rows == revisions.rows[key := revs];
        return;
      }
      revs := revs + [Revision(generation, app)];
      if |revs| > MAX_REVISIONS {
        revs := revs[|revs| - MAX_REVISIONS..];
      }
      revisions := Rows(revisions.rows[key := revs]);
    }

    method ApplyDeleteDeployApp(meta: Metadata)
      modifies this`apps, this`revisions, this`wakeups
      ensures View() == ApplyDelete(old(View()), meta)
      ensures wakeups == old(wakeups) + if TrimSpace(meta.name) != "" then 1 else 0
    {
      if TrimSpace(meta.name) == "" { return; }
      var key := DeployAppMapKey(meta);
      if !apps.Nil? { apps := Rows(apps.rows - {key}); }
      if !revisions.Nil? { revisions := Rows(revisions.rows - {key}); }
      wakeups := wakeups + 1;
    }

    method ApplyWorkloadAssignment(a: Assignment)
      modifies this`assignments
      ensures View() == ApplyAssignment(old(View()), a)
    {
      var n := NormalizeAssignment(a);
      if n.None? { return; }
      if assignments.Nil? { assignments := Rows(map[]); }
      assignments := Rows(assignments.rows[n.value.key := n.value]);
    }

    method ApplyVolumeBinding(b: Binding)
      modifies this`bindings
      ensures View() == ApplyBinding(old(View()), b)
    {
      var n := NormalizeBinding(b);
      if n.None? { return; }
      if bindings.Nil? { bindings := Rows(map[]); }
      bindings := Rows(bindings.rows[n.value.key := n.value]);
    }

    /** SaveSnapshot: the document that restores to an agreeing state. */
    method SaveSnapshot() returns (d: Snapshots.Document)
      ensures d == Snapshots.Save(View())
      ensures Snapshots.Equiv(Snapshots.Load(d), View()) && Snapshots.SameRows(Snapshots.Load(d), View())
    {
      d := Snapshots.Save(View());
      Snapshots.RestoreAgrees(View());
      Snapshots.RestoredRowsAreSaved(View());
    }

    /** RecoverFromSnapshot: replaces the whole state, or reports an error and changes nothing. No wake-up. */
    method RecoverFromSnapshot(data: Bytes) returns (ok: bool)
      modifies this
      ensures ok == !data.Garbled?
      ensures View() == match data
        case NoBytes => Init()
        case Garbled => old(View())
        case Holds(d) => Snapshots.Load(d)
      ensures wakeups == old(wakeups)
    {
      if data.Garbled? { return false; }
      var st := Init();
      if data.Holds? { st := Snapshots.Load(data.document); }
      applied, nodes, apps, revisions := st.applied, st.nodes, st.apps, st.revisions;
      assignments, bindings := st.assignments, st.bindings;
      ok := true;
    }

    method ListDeployApps() returns (out: seq<App>, ghost order: seq<string>)
      ensures Enumerates(Entries(apps), out, order)
      ensures |out| == |Entries(apps)| && forall k | k in Entries(apps) :: Entries(apps)[k] in out
    {
      out, order := ListRows(Entries(apps));
    }

    method ListAssignments() returns (out: seq<Assignment>, ghost order: seq<string>)
      ensures Enumerates(Entries(assignments), out, order)
      ensures |out| == |Entries(assignments)| && forall k | k in Entries(assignments) :: Entries(assignments)[k] in out
    {
      out, order := ListRows(Entries(assignments));
    }

    /** listDeployAppRevisions: newest first. */
    method ListDeployAppRevisions(meta: Metadata) returns (out: seq<Revision>)
      ensures var revs := RevisionsAt(View(), DeployAppMapKey(meta));
        |out| == |revs| && forall i | 0 <= i < |out| :: out[i] == revs[|revs| - 1 - i]
    {
      var revs := RevisionsAt(View(), DeployAppMapKey(meta));
      out := [];
      var i := |revs|;
      while i > 0
        invariant 0 <= i <= |revs| && |out| == |revs| - i
        invariant forall j | 0 <= j < |out| :: out[j] == revs[|revs| - 1 - j]
      {
        i := i - 1;
        out := out + [revs[i]];
      }
    }

    method PreviousDeployApp(meta: Metadata) returns (r: Option<Revision>)
      ensures var revs := RevisionsAt(View(), DeployAppMapKey(meta));
        if revs == [] then r == None else r == Some(revs[|revs| - 1])
    {
      var revs := RevisionsAt(View(), DeployAppMapKey(meta));
      if |revs| == 0 { return None; }
      r := Some(revs[|revs| - 1]);
    }
  }

  /** The assignments that a reachable state lists have pairwise distinct keys. */
  lemma ListedAssignmentsHaveDistinctKeys(gen: Gen, log: seq<Command>, out: seq<Assignment>, order: seq<string>)
    requires Enumerates(Entries(Replay(gen, Init(), log).assignments), out, order)
    ensures forall i, j | 0 <= i < j < |out| :: out[i].key != out[j].key
  {
    ReachableKeys(gen, log);
    assert forall i | 0 <= i < |out| :: out[i].key == order[i];
  }

  /** Agreeing tables have the same listings: whatever one replica lists, the other can list in the same order,
      row by row equal up to nil versus empty label tables. */
  lemma ListingsAgree<V>(f: V -> V, a: Table<V>, b: Table<V>, out: seq<V>, order: seq<string>)
    requires Snapshots.Agree(f, a, b) && Enumerates(Entries(a), out, order)
    ensures exists out' ::
      && Enumerates(Entries(b), out', order)
      && forall i | 0 <= i < |out| :: f(out'[i]) == f(out[i])
  {
    assert forall k | k in order :: k in Elements(order) && k in Entries(b);
    var out' := seq(|order|, i requires 0 <= i < |order| => Entries(b)[order[i]]);
    assert Enumerates(Entries(b), out', order);
  }
}
