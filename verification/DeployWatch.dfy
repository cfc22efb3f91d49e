/** The deploy watcher of the command line: what its counters mean, and when it reports success. */
module DeployWatch {
  import opened Common
  import opened GoStrings
  import opened DeployModel
  import opened Ordering
  import opened SchedulingState
  import opened SchedulingFsm

  /** A row of the runtime's workload listing. It does not say which app the workload belongs to. */
  datatype WorkloadItem = WorkloadItem(name: string, node: string, status: string, rest: string)

  predicate MatchesGeneration(a: Assignment, generation: string) {
    TrimSpace(generation) == "" || TrimSpace(a.generation) == TrimSpace(generation)
  }

  /** An expected assignment of the expected generation. */
  predicate Current(a: Assignment, keys: set<string>, generation: string) {
    a.key in keys && MatchesGeneration(a, generation)
  }

  function Tracked(keys: set<string>): Assignment -> bool { (a: Assignment) => a.key in keys }

  function IsRunning(keys: set<string>, generation: string): Assignment -> bool {
    (a: Assignment) => Current(a, keys, generation) && a.status == STATUS_RUNNING
  }

  function HasFailed(keys: set<string>, generation: string): Assignment -> bool {
    (a: Assignment) => Current(a, keys, generation) && a.status == STATUS_FAILED
  }

  function Listed(names: set<string>): WorkloadItem -> bool { (w: WorkloadItem) => w.name in names }

  function IsUp(names: set<string>): WorkloadItem -> bool {
    (w: WorkloadItem) => w.name in names && w.status == STATUS_RUNNING
  }

  function KeyOf(): Assignment -> string { (a: Assignment) => a.key }

  function NameOf(): WorkloadItem -> string { (w: WorkloadItem) => w.name }

  // ---- counting ----

  function Count<T>(items: seq<T>, p: T -> bool): nat {
    if items == [] then 0
    else Count(items[..|items| - 1], p) + if p(items[|items| - 1]) then 1 else 0
  }

  function Select<T>(items: seq<T>, p: T -> bool): seq<T> {
    if items == [] then []
    else Select(items[..|items| - 1], p) + if p(items[|items| - 1]) then [items[|items| - 1]] else []
  }

  function First<T>(items: seq<T>, p: T -> bool): Option<T> {
    if items == [] then None
    else
      var before := First(items[..|items| - 1], p);
      if before.None? && p(items[|items| - 1]) then Some(items[|items| - 1]) else before
  }

  function KeysOf<T>(items: seq<T>, p: T -> bool, key: T -> string): set<string> {
    set i | 0 <= i < |items| && p(items[i]) :: key(items[i])
  }

  ghost predicate DistinctKeys<T>(items: seq<T>, key: T -> string) {
    forall i, j | 0 <= i < j < |items| :: key(items[i]) != key(items[j])
  }

  /** No two of the rows that count share a key. */
  ghost predicate NoRepeats<T>(items: seq<T>, p: T -> bool, key: T -> string) {
    forall i, j | 0 <= i < j < |items| && p(items[i]) && p(items[j]) :: key(items[i]) != key(items[j])
  }

  lemma KeysNext<T>(items: seq<T>, p: T -> bool, key: T -> string)
    requires items != []
    ensures var n := |items| - 1;
      KeysOf(items, p, key) == KeysOf(items[..n], p, key) + if p(items[n]) then {key(items[n])} else {}
  {
    var n := |items| - 1;
    assert forall i | 0 <= i < n :: items[..n][i] == items[i];
  }

  lemma RepeatsNext<T>(items: seq<T>, p: T -> bool, key: T -> string)
    requires items != []
    ensures var n := |items| - 1;
      NoRepeats(items, p, key) <==>
        NoRepeats(items[..n], p, key) && (p(items[n]) ==> key(items[n]) !in KeysOf(items[..n], p, key))
  {
    var n := |items| - 1;
    assert forall i | 0 <= i < n :: items[..n][i] == items[i];
  }

  /** The count is at least the number of keys counted, and equal to it exactly when no key is counted twice. */
  lemma {:induction false} CountVersusKeys<T>(items: seq<T>, p: T -> bool, key: T -> string)
    ensures Count(items, p) >= |KeysOf(items, p, key)|
    ensures Count(items, p) == |KeysOf(items, p, key)| <==> NoRepeats(items, p, key)
  {
    if items != [] {
      var n := |items| - 1;
      var before := KeysOf(items[..n], p, key);
      CountVersusKeys(items[..n], p, key);
      KeysNext(items, p, key);
      RepeatsNext(items, p, key);
      assert |before + {key(items[n])}| == if key(items[n]) in before then |before| else |before| + 1 by {
        if key(items[n]) in before { assert before + {key(items[n])} == before; }
      }
    }
  }

  ghost predicate Covered<T>(items: seq<T>, p: T -> bool, key: T -> string, k: string) {
    exists i | 0 <= i < |items| :: p(items[i]) && key(items[i]) == k
  }

  lemma SubsetSize(a: set<string>, b: set<string>)
    requires a <= b
    ensures |a| == |b| <==> a == b
  {
    assert b == a + (b - a);
  }

  ghost predicate AllCovered<T>(items: seq<T>, p: T -> bool, key: T -> string, expected: set<string>) {
    forall k | k in expected :: Covered(items, p, key, k)
  }

  /** When no key is counted twice, the count reaches the number of expected keys exactly when each is covered;
      when one is, the two never hold together. */
  lemma CountReachesAll<T>(items: seq<T>, p: T -> bool, key: T -> string, expected: set<string>)
    requires forall x | x in items && p(x) :: key(x) in expected
    ensures if NoRepeats(items, p, key)
      then Count(items, p) == |expected| <==> AllCovered(items, p, key, expected)
      else !(Count(items, p) == |expected| && AllCovered(items, p, key, expected))
  {
    CountVersusKeys(items, p, key);
    SubsetSize(KeysOf(items, p, key), expected);
    forall k ensures k in KeysOf(items, p, key) <==> Covered(items, p, key, k) {}
  }

  lemma {:induction false} FirstExists<T>(items: seq<T>, p: T -> bool)
    ensures First(items, p).None? <==> forall x | x in items :: !p(x)
    ensures First(items, p).Some? ==> First(items, p).value in items && p(First(items, p).value)
    ensures First(items, p) == if FirstIndex(items, p) == |items| then None else Some(items[FirstIndex(items, p)])
  {
    if items != [] {
      var n := |items| - 1;
      FirstExists(items[..n], p);
      assert items == items[..n] + [items[n]];
      FirstIndexPrefix(items, p);
    }
  }

  lemma FirstIndexPrefix<T>(items: seq<T>, p: T -> bool)
    requires items != []
    ensures var n := |items| - 1;
      FirstIndex(items, p) ==
        if FirstIndex(items[..n], p) < n then FirstIndex(items[..n], p) else if p(items[n]) then n else |items|
  {
    var n := |items| - 1;
    var i, j := FirstIndex(items, p), FirstIndex(items[..n], p);
    assert forall k | 0 <= k < n :: items[..n][k] == items[k];
  }

  function Kept<T>(p: T -> bool): T -> Option<T> { (x: T) => if p(x) then Some(x) else None }

  lemma {:induction false} SelectPicks<T>(items: seq<T>, p: T -> bool) returns (at: seq<int>)
    ensures Picks(items, Kept(p), Select(items, p), at)
  {
    if items == [] {
      at := [];
    } else {
      var n := |items| - 1;
      var before := SelectPicks(items[..n], p);
      var one := OnePicked(Kept(p), items[n]);
      at := PicksAppend(Kept(p), items[..n], Select(items[..n], p), before, [items[n]], AsSeq(Kept(p)(items[n])), one);
      assert items == items[..n] + [items[n]];
    }
  }

  /** The rows selected are those that satisfy `p`, all of them, in the order of the listing. */
  lemma SelectExactly<T>(items: seq<T>, p: T -> bool)
    ensures exists at :: Picks(items, Kept(p), Select(items, p), at)
  {
    var at := SelectPicks(items, p);
  }

  // ---- the watcher ----

  datatype Outcome = Success | Failure(failed: Assignment) | Pending

  class Snapshot {
    var assignments: seq<Assignment>
    var workloads: seq<WorkloadItem>
    var total: nat
    var runningAssignments: nat
    var runningWorkloads: nat
    var failed: Option<Assignment>

    constructor (total: nat)
      ensures this.total == total && assignments == [] && workloads == []
      ensures runningAssignments == 0 && runningWorkloads == 0 && failed == None
    {
      assignments, workloads, failed := [], [], None;
      this.total, runningAssignments, runningWorkloads := total, 0, 0;
    }

    method CollectAssignments(items: seq<Assignment>, keys: set<string>, generation: string)
      modifies this
      ensures assignments == old(assignments) + Select(items, Tracked(keys))
      ensures runningAssignments == old(runningAssignments) + Count(items, IsRunning(keys, generation))
      ensures failed == if old(failed).Some? then old(failed) else First(items, HasFailed(keys, generation))
      ensures unchanged(`workloads) && unchanged(`total) && unchanged(`runningWorkloads)
    {
      for i := 0 to |items|
        invariant assignments == old(assignments) + Select(items[..i], Tracked(keys))
        invariant runningAssignments == old(runningAssignments) + Count(items[..i], IsRunning(keys, generation))
        invariant failed ==
          if old(failed).Some? then old(failed) else First(items[..i], HasFailed(keys, generation))
        invariant unchanged(`workloads) && unchanged(`total) && unchanged(`runningWorkloads)
      {
        assert items[..i + 1][..i] == items[..i];
        var a := items[i];
        if a.key in keys {
          assignments := assignments + [a];
          var matches := MatchesGeneration(a, generation);
          if matches && a.status == STATUS_RUNNING { runningAssignments := runningAssignments + 1; }
          if matches && a.status == STATUS_FAILED && failed == None { failed := Some(a); }
        }
      }
      assert items[..|items|] == items;
    }

    method CollectWorkloads(items: seq<WorkloadItem>, names: set<string>)
      modifies this
      ensures workloads == old(workloads) + Select(items, Listed(names))
      ensures runningWorkloads == old(runningWorkloads) + Count(items, IsUp(names))
      ensures unchanged(`assignments) && unchanged(`total) && unchanged(`runningAssignments) && unchanged(`failed)
    {
      for i := 0 to |items|
        invariant workloads == old(workloads) + Select(items[..i], Listed(names))
        invariant runningWorkloads == old(runningWorkloads) + Count(items[..i], IsUp(names))
        invariant unchanged(`assignments) && unchanged(`total) && unchanged(`runningAssignments) && unchanged(`failed)
      {
        assert items[..i + 1][..i] == items[..i];
        var w := items[i];
        if w.name in names {
          workloads := workloads + [w];
          if w.status == STATUS_RUNNING { runningWorkloads := runningWorkloads + 1; }
        }
      }
      assert items[..|items|] == items;
    }

    /** recordSnapshot, without the progress display. */
    method Record() returns (o: Outcome)
      ensures o.Failure? <==> failed.Some?
      ensures o.Failure? ==> failed == Some(o.failed)
      ensures o.Success? <==> failed.None? && runningAssignments == total && runningWorkloads == total
    {
      if failed.Some? { return Failure(failed.value); }
      if runningAssignments == total && runningWorkloads == total { return Success; }
      o := Pending;
    }
  }

  // ---- what the app expects ----

  function ExpectedNames(app: App): set<string> {
    set w | w in app.workloads && AssignmentKey(app.meta, w.name) != "" :: w.name
  }

  function ExpectedKeys(app: App): set<string> {
    set n | n in ExpectedNames(app) :: AssignmentKey(app.meta, n)
  }

  /** expectedDeployWorkloads. */
  method ExpectedDeployWorkloads(app: App) returns (keys: set<string>, names: set<string>)
    ensures keys == ExpectedKeys(app) && names == ExpectedNames(app)
  {
    keys, names := {}, {};
    for i := 0 to |app.workloads|
      invariant names == set w | w in app.workloads[..i] && AssignmentKey(app.meta, w.name) != "" :: w.name
      invariant keys == set n | n in names :: AssignmentKey(app.meta, n)
    {
      var w := app.workloads[i];
      assert app.workloads[..i + 1] == app.workloads[..i] + [w];
      var key := AssignmentKey(app.meta, w.name);
      if key != "" {
        keys := keys + {key};
        names := names + {w.name};
      }
    }
    assert app.workloads[..|app.workloads|] == app.workloads;
  }

  /** readDeploySnapshot and recordSnapshot over one pair of listings. */
  method Poll(app: App, generation: string, items: seq<Assignment>, runtime: seq<WorkloadItem>) returns (o: Outcome)
    ensures o == Verdict(ExpectedKeys(app), ExpectedNames(app), generation, items, runtime)
  {
    var keys, names := ExpectedDeployWorkloads(app);
    var s := new Snapshot(|keys|);
    s.CollectAssignments(items, keys, generation);
    s.CollectWorkloads(runtime, names);
    o := s.Record();
  }

  function Verdict(
    keys: set<string>, names: set<string>, generation: string, items: seq<Assignment>, runtime: seq<WorkloadItem>)
    : Outcome
  {
    match First(items, HasFailed(keys, generation))
    case Some(a) => Failure(a)
    case None =>
      if Count(items, IsRunning(keys, generation)) == |keys| == Count(runtime, IsUp(names)) then Success
      else Pending
  }

  // ---- what a verdict means ----

  /** When no running assignment is listed twice, the running count equals the total exactly when every expected
      key has a running assignment of the expected generation. */
  lemma RunningMeansAll(items: seq<Assignment>, keys: set<string>, generation: string)
    requires NoRepeats(items, IsRunning(keys, generation), KeyOf())
    ensures Count(items, IsRunning(keys, generation)) == |keys| <==>
      AllCovered(items, IsRunning(keys, generation), KeyOf(), keys)
  {
    CountReachesAll(items, IsRunning(keys, generation), KeyOf(), keys);
  }

  /** Success is never reported while an expected assignment of the expected generation has failed, and such a
      failure is reported whatever else is listed. */
  lemma FailureIsReported(
    keys: set<string>, names: set<string>, generation: string, items: seq<Assignment>, runtime: seq<WorkloadItem>)
    ensures var v := Verdict(keys, names, generation, items, runtime);
      && (v.Failure? <==> exists a | a in items :: IsFailed(a, keys, generation))
      && (v.Failure? ==> v.failed in items && IsFailed(v.failed, keys, generation))
  {
    FirstExists(items, HasFailed(keys, generation));
    assert forall a | a in items :: HasFailed(keys, generation)(a) <==> IsFailed(a, keys, generation);
  }

  /** An expected assignment has failed at the expected generation, or at any if none is expected. */
  ghost predicate IsFailed(a: Assignment, keys: set<string>, generation: string) {
    && a.key in keys && a.status == "failed"
    && (TrimSpace(generation) == "" || TrimSpace(a.generation) == TrimSpace(generation))
  }

  lemma CoveredIsNotFailed(items: seq<Assignment>, keys: set<string>, generation: string)
    requires DistinctKeys(items, KeyOf())
    requires AllCovered(items, IsRunning(keys, generation), KeyOf(), keys)
    ensures First(items, HasFailed(keys, generation)).None?
  {
    FirstExists(items, HasFailed(keys, generation));
    forall a | a in items ensures !HasFailed(keys, generation)(a) {
      if a.key in keys {
        assert Covered(items, IsRunning(keys, generation), KeyOf(), a.key);
        var i :| 0 <= i < |items| && IsRunning(keys, generation)(items[i]) && KeyOf()(items[i]) == a.key;
        var j :| 0 <= j < |items| && items[j] == a;
        assert i == j;
      }
    }
  }

  // The runtime listing does not say whose a row is. `own` does, and the watcher never reads it.

  /** A row of the app itself that is expected and up. */
  function Mine(own: WorkloadItem -> bool, names: set<string>): WorkloadItem -> bool {
    (w: WorkloadItem) => own(w) && IsUp(names)(w)
  }

  /** Some row that is counted belongs to another app. */
  ghost predicate Stray(runtime: seq<WorkloadItem>, own: WorkloadItem -> bool, names: set<string>) {
    exists w | w in runtime :: IsUp(names)(w) && !own(w)
  }

  lemma {:induction false} CountOwn(runtime: seq<WorkloadItem>, own: WorkloadItem -> bool, names: set<string>)
    ensures Count(runtime, Mine(own, names)) <= Count(runtime, IsUp(names))
    ensures Count(runtime, Mine(own, names)) == Count(runtime, IsUp(names)) <==> !Stray(runtime, own, names)
  {
    if runtime != [] {
      var n := |runtime| - 1;
      CountOwn(runtime[..n], own, names);
      assert runtime == runtime[..n] + [runtime[n]];
      assert Stray(runtime, own, names) <==>
        Stray(runtime[..n], own, names) || (IsUp(names)(runtime[n]) && !own(runtime[n]));
    }
  }

  /** The runtime count against the app's own workloads. */
  lemma OwnCountReachesAll(runtime: seq<WorkloadItem>, own: WorkloadItem -> bool, names: set<string>)
    ensures var counted, ownUp :=
        Count(runtime, IsUp(names)) == |names|, AllCovered(runtime, Mine(own, names), NameOf(), names);
      if NoRepeats(runtime, Mine(own, names), NameOf()) && !Stray(runtime, own, names)
      then counted <==> ownUp
      else !(counted && ownUp)
  {
    var mine := Mine(own, names);
    CountOwn(runtime, own, names);
    CountVersusKeys(runtime, mine, NameOf());
    CountReachesAll(runtime, mine, NameOf(), names);
    SubsetSize(KeysOf(runtime, mine, NameOf()), names);
    if AllCovered(runtime, mine, NameOf(), names) {
      forall n | n in names ensures n in KeysOf(runtime, mine, NameOf()) { assert Covered(runtime, mine, NameOf(), n); }
    }
  }

  /** For assignments with distinct keys, and as many names as keys: when no workload of the app is up twice and no
      row of another app is counted, success means exactly that every expected key is running at the expected
      generation and every expected workload of the app is up. Otherwise success and that never hold together. */
  lemma SuccessExactly(
    own: WorkloadItem -> bool, keys: set<string>, names: set<string>, generation: string,
    items: seq<Assignment>, runtime: seq<WorkloadItem>)
    requires DistinctKeys(items, KeyOf()) && |keys| == |names|
    ensures var success := Verdict(keys, names, generation, items, runtime).Success?;
      var allUp :=
        && AllCovered(items, IsRunning(keys, generation), KeyOf(), keys)
        && AllCovered(runtime, Mine(own, names), NameOf(), names);
      if NoRepeats(runtime, Mine(own, names), NameOf()) && !Stray(runtime, own, names)
      then success <==> allUp
      else !(success && allUp)
  {
    RunningMeansAll(items, keys, generation);
    OwnCountReachesAll(runtime, own, names);
    if AllCovered(items, IsRunning(keys, generation), KeyOf(), keys) {
      CoveredIsNotFailed(items, keys, generation);
    }
  }

  /** Over the assignments that a replica lists, the running count equals the total exactly when the replicated
      state holds a running assignment of the expected generation under every expected key. */
  lemma RunningMeansReplicated(
    gen: Gen, log: seq<Command>, items: seq<Assignment>, order: seq<string>, keys: set<string>, generation: string)
    requires Enumerates(Entries(Replay(gen, Init(), log).assignments), items, order)
    ensures var stored := Entries(Replay(gen, Init(), log).assignments);
      Count(items, IsRunning(keys, generation)) == |keys| <==>
        forall k | k in keys ::
          && k in stored && stored[k].status == "running"
          && (TrimSpace(generation) == "" || TrimSpace(stored[k].generation) == TrimSpace(generation))
  {
    var stored := Entries(Replay(gen, Init(), log).assignments);
    ListedAssignmentsHaveDistinctKeys(gen, log, items, order);
    ReachableKeys(gen, log);
    RunningMeansAll(items, keys, generation);
    ListedMeansStored(stored, items, order, keys, generation);
  }

  lemma ListedMeansStored(
    stored: map<string, Assignment>, items: seq<Assignment>, order: seq<string>, keys: set<string>, generation: string)
    requires Enumerates(stored, items, order) && forall k | k in stored :: stored[k].key == k
    ensures forall k | k in keys :: Covered(items, IsRunning(keys, generation), KeyOf(), k) <==>
      k in stored && MatchesGeneration(stored[k], generation) && stored[k].status == STATUS_RUNNING
  {
    forall k | k in keys && k in stored && IsRunning(keys, generation)(stored[k])
      ensures Covered(items, IsRunning(keys, generation), KeyOf(), k)
    {
      assert k in Elements(order);
      var i :| 0 <= i < |order| && order[i] == k;
      assert items[i] == stored[k];
    }
  }

  // ---- keys and names of one app ----

  lemma KeysFollowTrimmedNames(meta: Metadata, a: string, b: string)
    requires AssignmentKey(meta, a) != "" && AssignmentKey(meta, b) != ""
    ensures AssignmentKey(meta, a) == AssignmentKey(meta, b) <==> TrimSpace(a) == TrimSpace(b)
  {
    var p := NamespaceOrDefault(meta.namespace) + "/" + TrimSpace(meta.name) + "/";
    assert AssignmentKey(meta, a) == p + TrimSpace(a) && AssignmentKey(meta, b) == p + TrimSpace(b);
    assert (p + TrimSpace(a))[|p|..] == TrimSpace(a) && (p + TrimSpace(b))[|p|..] == TrimSpace(b);
  }

  /** An app expects the name, as written, of every workload whose trimmed name is not blank, if its own is not blank,
      and under the key of namespace, app and workload joined by slashes. */
  lemma ExpectedExactly(app: App, n: string, k: string)
    ensures n in ExpectedNames(app) <==>
      TrimSpace(app.meta.name) != "" && TrimSpace(n) != "" && exists w | w in app.workloads :: w.name == n
    ensures k in ExpectedKeys(app) <==> exists x | x in ExpectedNames(app) ::
      k == (if TrimSpace(app.meta.namespace) == "" then "default" else TrimSpace(app.meta.namespace))
           + "/" + TrimSpace(app.meta.name) + "/" + TrimSpace(x)
  {
    forall x | x in ExpectedNames(app)
      ensures AssignmentKey(app.meta, x) ==
        (if TrimSpace(app.meta.namespace) == "" then "default" else TrimSpace(app.meta.namespace))
        + "/" + TrimSpace(app.meta.name) + "/" + TrimSpace(x)
    {
    }
  }

  /** An app expects as many names as keys exactly when no two of its workload names differ only in spaces around
      them. */
  lemma KeysMatchNames(app: App)
    ensures |ExpectedKeys(app)| == |ExpectedNames(app)| <==>
      forall a, b | a in ExpectedNames(app) && b in ExpectedNames(app) && TrimSpace(a) == TrimSpace(b) :: a == b
  {
    var names := ExpectedNames(app);
    var f := (n: string) => AssignmentKey(app.meta, n);
    assert ExpectedKeys(app) == Image(names, f);
    ImageSize(names, f);
    forall a, b | a in names && b in names ensures f(a) == f(b) <==> TrimSpace(a) == TrimSpace(b) {
      KeysFollowTrimmedNames(app.meta, a, b);
    }
  }

  function Image(s: set<string>, f: string -> string): set<string> { set x | x in s :: f(x) }

  ghost predicate Injective(s: set<string>, f: string -> string) {
    forall a, b | a in s && b in s && f(a) == f(b) :: a == b
  }

  lemma {:induction false} ImageSize(s: set<string>, f: string -> string)
    ensures |Image(s, f)| <= |s|
    ensures |Image(s, f)| == |s| <==> Injective(s, f)
  {
    if s != {} {
      var x :| x in s;
      var rest := s - {x};
      ImageSize(rest, f);
      assert Image(s, f) == Image(rest, f) + {f(x)};
      if Injective(s, f) {
        assert Injective(rest, f) && f(x) !in Image(rest, f);
      }
      if |Image(s, f)| == |s| {
        assert f(x) !in Image(rest, f);
        assert Injective(rest, f);
      }
    }
  }

  // ---- where a verdict misleads ----

  /** Runtime rows are counted by name alone, at every generation. A row of another app with an expected name makes
      up for a workload of the app that is down, or keeps the watch pending although that workload is up. */
  lemma NamesakesAreCounted(
    own: WorkloadItem -> bool, a: Assignment, generation: string,
    up: WorkloadItem, down: WorkloadItem, other: WorkloadItem)
    requires a.status == STATUS_RUNNING && MatchesGeneration(a, generation)
    requires up.name == down.name == other.name == a.workload
    requires up.status == other.status == STATUS_RUNNING != down.status
    requires own(up) && own(down) && !own(other)
    ensures var keys, names := {a.key}, {a.workload};
      && Verdict(keys, names, generation, [a], [down, other]) == Success
      && !AllCovered([down, other], Mine(own, names), NameOf(), names)
      && Verdict(keys, names, generation, [a], [up, other]) == Pending
      && AllCovered([up, other], Mine(own, names), NameOf(), names)
  {
    var keys, names := {a.key}, {a.workload};
    CountFew(a, a, IsRunning(keys, generation));
    FirstOfOne(a, HasFailed(keys, generation));
    CountFew(down, other, IsUp(names));
    CountFew(up, other, IsUp(names));
    CoveredByFew(down, other, Mine(own, names), NameOf(), a.workload);
    CoveredByFew(up, other, Mine(own, names), NameOf(), a.workload);
    assert |keys| == 1;
  }

  lemma CountFew<T>(x: T, y: T, p: T -> bool)
    ensures Count([x], p) == if p(x) then 1 else 0
    ensures Count([x, y], p) == (if p(x) then 1 else 0) + if p(y) then 1 else 0
  {
    assert [x, y][..1] == [x] && [x][..0] == [];
    assert Count([x], p) == if p(x) then 1 else 0;
  }

  lemma FirstOfOne<T>(x: T, p: T -> bool)
    ensures First([x], p) == if p(x) then Some(x) else None
  {
    assert [x][..0] == [];
  }

  lemma CoveredByFew<T>(x: T, y: T, p: T -> bool, key: T -> string, k: string)
    ensures Covered([x, y], p, key, k) <==> (p(x) && key(x) == k) || (p(y) && key(y) == k)
  {
    var items := [x, y];
    assert items[0] == x && items[1] == y;
  }
}
