/** Route lists compiled by different replicas of the scheduling state. */
module IngressReplicas {
  import opened Common
  import opened GoStrings
  import opened DeployModel
  import opened Ordering
  import opened IngressCompile
  import opened Routing
  import SchedulingState
  import RevisionHistory
  import Snapshots
  import SchedulingFsm

  // ---- compilation ignores label tables ----

  lemma RouteIgnoresLabels(app: App, opts: Options, route: Route)
    ensures CompileRoute(CanonApp(app), opts, route) == CompileRoute(app, opts, route)
  {
    var name := TrimSpace(route.workload);
    assert AssignmentKey(CanonApp(app).meta, name) == AssignmentKey(app.meta, name);
    assert RemoteUpstream(CanonApp(app), opts, name) == RemoteUpstream(app, opts, name);
  }

  lemma {:induction false} RoutesIgnoreLabels(app: App, opts: Options, routes: seq<Route>)
    ensures CompileRoutes(CanonApp(app), opts, routes) == CompileRoutes(app, opts, routes)
  {
    if routes != [] {
      RouteIgnoresLabels(app, opts, routes[0]);
      RoutesIgnoreLabels(app, opts, routes[1..]);
    }
  }

  lemma {:induction false} AppIgnoresLabels(app: App, opts: Options, ingresses: seq<seq<Route>>)
    ensures CompileApp(CanonApp(app), opts, ingresses) == CompileApp(app, opts, ingresses)
  {
    if ingresses != [] {
      RoutesIgnoreLabels(app, opts, ingresses[0]);
      AppIgnoresLabels(app, opts, ingresses[1..]);
    }
  }

  lemma RoutesAgree(a: App, b: App, opts: Options)
    requires CanonApp(a) == CanonApp(b)
    ensures AppRoutes(a, opts) == AppRoutes(b, opts)
  {
    assert CanonApp(a).ingresses == CanonApp(b).ingresses;
    AppIgnoresLabels(a, opts, a.ingresses);
    AppIgnoresLabels(b, opts, a.ingresses);
  }

  // ---- listings ----

  ghost predicate KeyedApps(m: map<string, App>) {
    forall k | k in m :: DeployAppMapKey(m[k].meta) == k
  }

  /** No listed namespace starts with a slash. */
  predicate PlainNamespaces(apps: seq<App>) {
    forall a | a in apps :: !HasPrefix(TrimSpace(a.meta.namespace), "/")
  }

  lemma KeyIgnoresLabels(a: App, b: App)
    requires CanonApp(a) == CanonApp(b)
    ensures KeyOf(a) == KeyOf(b) && DeployAppMapKey(a.meta) == DeployAppMapKey(b.meta)
  {
    assert CanonApp(a).meta.name == a.meta.name && CanonApp(b).meta.name == b.meta.name;
    assert CanonApp(a).meta.namespace == a.meta.namespace && CanonApp(b).meta.namespace == b.meta.namespace;
  }

  lemma KeyedAppsAgree(s: Table<App>, t: Table<App>)
    requires Snapshots.Agree(CanonApp, s, t) && KeyedApps(Entries(t))
    ensures KeyedApps(Entries(s))
  {
    forall k | k in Entries(s) ensures DeployAppMapKey(Entries(s)[k].meta) == k {
      KeyIgnoresLabels(Entries(s)[k], Entries(t)[k]);
    }
  }

  /** A listing of a keyed table has no two apps with one sort key. */
  lemma ListingIsDistinct(m: map<string, App>, apps: seq<App>, order: seq<string>)
    requires KeyedApps(m) && SchedulingFsm.Enumerates(m, apps, order) && PlainNamespaces(apps)
    ensures DistinctBy(KeyOf, apps)
  {
    forall a, b | a in apps && b in apps && KeyOf(a).Some? && KeyOf(a) == KeyOf(b) ensures a == b {
      var i :| 0 <= i < |apps| && apps[i] == a;
      var j :| 0 <= j < |apps| && apps[j] == b;
      SortKeyVersusDeployKey(a.meta, b.meta);
      assert order[i] == DeployAppMapKey(a.meta) == DeployAppMapKey(b.meta) == order[j];
    }
  }

  /** Every listed app is in an agreeing listing too, up to nil versus empty label tables. */
  lemma ListedInBoth(
    s: Table<App>, t: Table<App>, xs: seq<App>, ys: seq<App>, p: seq<string>, q: seq<string>, a: App) returns (b: App)
    requires Snapshots.Agree(CanonApp, s, t) && a in xs
    requires SchedulingFsm.Enumerates(Entries(s), xs, p) && SchedulingFsm.Enumerates(Entries(t), ys, q)
    ensures b in ys && CanonApp(a) == CanonApp(b)
  {
    var i :| 0 <= i < |xs| && xs[i] == a;
    assert p[i] in Elements(p);
    assert p[i] in Elements(q);
    var j :| 0 <= j < |q| && q[j] == p[i];
    b := ys[j];
  }

  /** The app under a sort key, in one listing and in an agreeing one. */
  lemma TablesAgreeAt(
    s: Table<App>, t: Table<App>, xs: seq<App>, ys: seq<App>, p: seq<string>, q: seq<string>, opts: Options, k: string)
    requires Snapshots.Agree(CanonApp, s, t)
    requires SchedulingFsm.Enumerates(Entries(s), xs, p) && SchedulingFsm.Enumerates(Entries(t), ys, q)
    requires k in LastBy(KeyOf, xs)
    ensures k in LastBy(KeyOf, ys)
    ensures Interchangeable(ys, opts) ==> AppRoutes(LastBy(KeyOf, xs)[k], opts) == AppRoutes(LastBy(KeyOf, ys)[k], opts)
  {
    LastByExactly(KeyOf, xs, k);
    LastByExactly(KeyOf, ys, k);
    var a := LastBy(KeyOf, xs)[k];
    var b := ListedInBoth(s, t, xs, ys, p, q, a);
    KeyIgnoresLabels(a, b);
    RoutesAgree(a, b, opts);
  }

  /** Two listings of agreeing app tables compile to the same routes. */
  lemma ListingsCompileAlike(
    s: Table<App>, t: Table<App>, xs: seq<App>, ys: seq<App>, p: seq<string>, q: seq<string>,
    opts: Options, out: seq<IngressRoute>, out': seq<IngressRoute>)
    requires Snapshots.Agree(CanonApp, s, t)
    requires SchedulingFsm.Enumerates(Entries(s), xs, p) && SchedulingFsm.Enumerates(Entries(t), ys, q)
    requires Interchangeable(ys, opts)
    requires Compiled(xs, opts, out) && Compiled(ys, opts, out')
    ensures out == out'
  {
    var x, y := LastBy(KeyOf, xs), LastBy(KeyOf, ys);
    forall k | k in x ensures k in y && AppRoutes(x[k], opts) == AppRoutes(y[k], opts) {
      TablesAgreeAt(s, t, xs, ys, p, q, opts, k);
    }
    forall k | k in y ensures k in x { TablesAgreeAt(t, s, ys, xs, q, p, opts, k); }
    assert x.Keys == y.Keys;
    SameRoutesSameList(xs, ys, opts, out, out');
  }

  lemma LiveAppsAreKeyed(gen: Gen, log: seq<SchedulingState.Command>, life: Snapshots.Life)
    requires Sound(gen) && Snapshots.Lived(log, life)
    ensures KeyedApps(Entries(Snapshots.Live(gen, log, life).apps))
  {
    Snapshots.RebuiltReplicaAgrees(gen, log, life);
    var done := log[..Snapshots.Position(life)];
    var r := SchedulingState.Replay(gen, SchedulingState.Init(), done);
    forall k | k in Entries(r.apps) ensures DeployAppMapKey(Entries(r.apps)[k].meta) == k {
      RevisionHistory.ReachableConsistent(gen, done, k);
    }
    KeyedAppsAgree(Snapshots.Live(gen, log, life).apps, r.apps);
  }

  lemma AgreeThrough(s: Table<App>, r: Table<App>, t: Table<App>)
    requires Snapshots.Agree(CanonApp, s, r) && Snapshots.Agree(CanonApp, t, r)
    ensures Snapshots.Agree(CanonApp, s, t)
  {
  }

  /** Replicas at the same place of the log, however they came there, list their apps in any order and still compile
      the same route list from equal options, if listed apps with one sort key compile to the same routes. */
  lemma ReplicasCompileAlike(
    gen: Gen, log: seq<SchedulingState.Command>, life: Snapshots.Life, life': Snapshots.Life,
    xs: seq<App>, ys: seq<App>, p: seq<string>, q: seq<string>,
    opts: Options, out: seq<IngressRoute>, out': seq<IngressRoute>)
    requires Sound(gen) && Snapshots.Lived(log, life) && Snapshots.Lived(log, life')
    requires Snapshots.Position(life) == Snapshots.Position(life')
    requires SchedulingFsm.Enumerates(Entries(Snapshots.Live(gen, log, life).apps), xs, p)
    requires SchedulingFsm.Enumerates(Entries(Snapshots.Live(gen, log, life').apps), ys, q)
    requires Interchangeable(ys, opts)
    requires Compiled(xs, opts, out) && Compiled(ys, opts, out')
    ensures out == out'
  {
    var s, t := Snapshots.Live(gen, log, life).apps, Snapshots.Live(gen, log, life').apps;
    Snapshots.RebuiltReplicaAgrees(gen, log, life);
    Snapshots.RebuiltReplicaAgrees(gen, log, life');
    AgreeThrough(s, SchedulingState.Replay(gen, SchedulingState.Init(), log[..Snapshots.Position(life)]).apps, t);
    ListingsCompileAlike(s, t, xs, ys, p, q, opts, out, out');
  }

  /** What a replica lists has no two apps with one sort key, whenever no namespace starts with a slash, so its order
      does not matter. */
  lemma ReplicaListingIsDistinct(
    gen: Gen, log: seq<SchedulingState.Command>, life: Snapshots.Life, xs: seq<App>, p: seq<string>, opts: Options)
    requires Sound(gen) && Snapshots.Lived(log, life)
    requires SchedulingFsm.Enumerates(Entries(Snapshots.Live(gen, log, life).apps), xs, p) && PlainNamespaces(xs)
    ensures DistinctBy(KeyOf, xs) && OrderFree(xs, opts)
  {
    LiveAppsAreKeyed(gen, log, life);
    ListingIsDistinct(Entries(Snapshots.Live(gen, log, life).apps), xs, p);
    DistinctIsInterchangeable(xs, opts);
    OrderFreeExactly(xs, opts);
  }
}
