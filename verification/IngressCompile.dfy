/** Compiling the ingresses of the desired apps into an ordered route list. */
module IngressCompile {
  import opened Common
  import opened GoStrings
  import opened DeployModel
  import opened Ordering
  import opened PathClean
  import opened Routing

  /** `dns` and `assignments` are None when the service has none; `nodeBase` is a node's ingress URL as the
      cluster configuration gives it. */
  datatype Options = Options(
    dns: Option<(string, string) -> Option<string>>,
    assignments: Option<string -> Option<Assignment>>,
    nodeBase: string -> Option<string>,
    localNode: string)

  datatype Target = Target(upstream: string, stripPrefix: string)

  // ---- one route ----

  function IngressPath(raw: string): Option<string> {
    var path := TrimSpace(raw);
    if path == "" then None else Some(if HasPrefix(path, "/") then path else "/" + path)
  }

  function EndpointNamed(name: string): Endpoint -> bool { (e: Endpoint) => TrimSpace(e.name) == name }

  function WorkloadNamed(name: string): Workload -> bool { (w: Workload) => TrimSpace(w.name) == name }

  /** endpointHTTPPort: the first endpoint with the name decides. */
  function EndpointPort(endpoints: seq<Endpoint>, name: string): Option<int> {
    var i := FirstIndex(endpoints, EndpointNamed(name));
    if i == |endpoints| || endpoints[i].protocol !in {"", "http"} || endpoints[i].port <= 0 then None
    else Some(endpoints[i].port)
  }

  /** The running assignment of a workload, with its node trimmed and non-empty. */
  function RunningNode(app: App, opts: Options, workload: string): Option<string> {
    if opts.assignments.None? then None
    else
      var a := opts.assignments.value(AssignmentKey(app.meta, workload));
      if a.None? || a.value.status != STATUS_RUNNING || TrimSpace(a.value.node) == "" then None
      else Some(TrimSpace(a.value.node))
  }

  function RemoteUpstream(app: App, opts: Options, workload: string): Option<string> {
    var node := RunningNode(app, opts, workload);
    if node.None? || node.value == TrimSpace(opts.localNode) then None else opts.nodeBase(node.value)
  }

  function LocalUpstream(app: App, opts: Options, workload: string, port: int): Option<string> {
    if opts.dns.None? then None
    else
      match opts.dns.value(TrimSpace(app.meta.namespace), workload)
      case None => None
      case Some(ip) => Some("http://" + ip + ":" + Itoa(port))
  }

  /** workloadTarget: a remote node's ingress first, the local workload otherwise. */
  function WorkloadTarget(app: App, opts: Options, workload: string, port: int): Option<Target> {
    match RemoteUpstream(app, opts, workload)
    case Some(u) => Some(Target(u, "/"))
    case None =>
      match LocalUpstream(app, opts, workload, port)
      case Some(u) => Some(Target(u, ""))
      case None => None
  }

  /** The workload of that trimmed name; a later one wins. */
  function FindWorkload(ws: seq<Workload>, name: string): Option<Workload> {
    var i := LastIndex(ws, WorkloadNamed(name));
    if i == 0 then None else Some(ws[i - 1])
  }

  function CompileRoute(app: App, opts: Options, route: Route): Option<IngressRoute> {
    var name := TrimSpace(route.workload);
    var path, workload := IngressPath(route.path), FindWorkload(app.workloads, name);
    if path.None? || workload.None? then None
    else
      var port := EndpointPort(workload.value.endpoints, TrimSpace(route.endpoint));
      if port.None? then None
      else
        match WorkloadTarget(app, opts, name, port.value)
        case None => None
        case Some(t) => Some(IngressRoute(path.value, t.upstream, t.stripPrefix))
  }

  function CompileRoutes(app: App, opts: Options, routes: seq<Route>): seq<IngressRoute> {
    if routes == [] then []
    else
      var rest := CompileRoutes(app, opts, routes[1..]);
      match CompileRoute(app, opts, routes[0])
      case None => rest
      case Some(r) => [r] + rest
  }

  function CompileApp(app: App, opts: Options, ingresses: seq<seq<Route>>): seq<IngressRoute> {
    if ingresses == [] then []
    else CompileRoutes(app, opts, ingresses[0]) + CompileApp(app, opts, ingresses[1..])
  }

  // ---- the whole list ----

  function SortKey(m: Metadata): string { TrimSpace(m.namespace) + "/" + TrimSpace(m.name) }

  /** Unnamed apps are skipped. */
  function KeyOf(app: App): Option<string> {
    if TrimSpace(app.meta.name) == "" then None else Some(SortKey(app.meta))
  }

  /** What is stored under each key when a list is entered in order; a later value wins. */
  function LastBy<T>(key: T -> Option<string>, xs: seq<T>): map<string, T> {
    if xs == [] then map[]
    else
      var earlier, x := LastBy(key, xs[..|xs| - 1]), xs[|xs| - 1];
      if key(x).Some? then earlier[key(x).value := x] else earlier
  }

  function FlatMap<T>(order: seq<string>, f: string -> seq<T>): seq<T> {
    if order == [] then [] else f(order[0]) + FlatMap(order[1..], f)
  }

  lemma {:induction false} FlatMapAppend<T>(a: seq<string>, k: string, f: string -> seq<T>)
    ensures FlatMap(a + [k], f) == FlatMap(a, f) + f(k)
  {
    if a == [] {
      assert a + [k] == [k] && [k][1..] == [];
    } else {
      assert (a + [k])[0] == a[0] && (a + [k])[1..] == a[1..] + [k];
      FlatMapAppend(a[1..], k, f);
    }
  }

  lemma {:induction false} FlatMapAgrees<T>(order: seq<string>, f: string -> seq<T>, g: string -> seq<T>)
    requires forall k | k in order :: f(k) == g(k)
    ensures FlatMap(order, f) == FlatMap(order, g)
  {
    if order != [] { FlatMapAgrees(order[1..], f, g); }
  }

  function AppRoutes(app: App, opts: Options): seq<IngressRoute> { CompileApp(app, opts, app.ingresses) }

  function RoutesOf(byKey: map<string, App>, opts: Options): string -> seq<IngressRoute> {
    k => if k in byKey then AppRoutes(byKey[k], opts) else []
  }

  /** deployAppsBySortKey: the keys in ascending order, and the app under each. */
  method DeployAppsBySortKey(apps: seq<App>) returns (keys: seq<string>, byKey: map<string, App>)
    ensures byKey == LastBy(KeyOf, apps)
    ensures Ascending(keys) && Elements(keys) == byKey.Keys
  {
    keys, byKey := [], map[];
    for i := 0 to |apps|
      invariant byKey == LastBy(KeyOf, apps[..i])
      invariant Distinct(keys) && Elements(keys) == byKey.Keys
    {
      assert apps[..i + 1][..i] == apps[..i];
      var app := apps[i];
      if KeyOf(app).Some? {
        var key := KeyOf(app).value;
        if key !in byKey {
          assert forall j | 0 <= j < |keys| :: keys[j] in Elements(keys);
          ghost var was := keys;
          keys := keys + [key];
          assert Elements(keys) == Elements(was) + {key};
        }
        byKey := byKey[key := app];
      }
    }
    assert apps[..|apps|] == apps;
    SortAscending(keys);
    SameElements(Sort(keys), keys);
    keys := Sort(keys);
  }

  /** A `Range` over keys that appends what each key gives. */
  method RangeKeys<T>(keys: seq<string>, f: string -> seq<T>) returns (out: seq<T>)
    ensures out == FlatMap(keys, f)
  {
    out := [];
    for i := 0 to |keys|
      invariant out == FlatMap(keys[..i], f)
    {
      assert keys[..i + 1] == keys[..i] + [keys[i]];
      FlatMapAppend(keys[..i], keys[i], f);
      out := out + f(keys[i]);
    }
    assert keys[..|keys|] == keys;
  }

  /** The only ascending listing of a finite set of keys, and the routes compiled in that order. */
  ghost predicate Compiled(apps: seq<App>, opts: Options, out: seq<IngressRoute>) {
    var byKey := LastBy(KeyOf, apps);
    exists order :: Ascending(order) && Elements(order) == byKey.Keys && out == FlatMap(order, RoutesOf(byKey, opts))
  }

  /** CompileIngressRoutesFromDeployWithOptions: the apps' routes in ascending order of their sort keys. */
  method CompileIngressRoutes(apps: seq<App>, opts: Options) returns (out: seq<IngressRoute>)
    ensures Compiled(apps, opts, out)
  {
    var keys, byKey := DeployAppsBySortKey(apps);
    out := RangeKeys(keys, RoutesOf(byKey, opts));
  }

  // ---- order independence ----

  ghost predicate DistinctBy<T(!new)>(key: T -> Option<string>, xs: seq<T>) {
    forall a, b | a in xs && b in xs && key(a).Some? && key(a) == key(b) :: a == b
  }

  /** The table holds, under each key, a listed value with that key. */
  lemma {:induction false} LastByExactly<T(!new)>(key: T -> Option<string>, xs: seq<T>, k: string)
    ensures k in LastBy(key, xs) ==> LastBy(key, xs)[k] in xs && key(LastBy(key, xs)[k]) == Some(k)
    ensures (exists x | x in xs :: key(x) == Some(k)) ==> k in LastBy(key, xs)
    decreases |xs|
  {
    if xs != [] {
      var n := |xs| - 1;
      LastByExactly(key, xs[..n], k);
      assert xs == xs[..n] + [xs[n]];
    }
  }

  /** Any two listed apps with one sort key compile to the same routes. */
  ghost predicate Interchangeable(apps: seq<App>, opts: Options) {
    forall a, b | a in apps && b in apps && KeyOf(a).Some? && KeyOf(a) == KeyOf(b) :: AppRoutes(a, opts) == AppRoutes(b, opts)
  }

  ghost predicate SameRoutes(x: map<string, App>, y: map<string, App>, opts: Options) {
    x.Keys == y.Keys && forall k | k in x :: AppRoutes(x[k], opts) == AppRoutes(y[k], opts)
  }

  lemma LastByForgetsOrder(xs: seq<App>, ys: seq<App>, opts: Options)
    requires Interchangeable(xs, opts) && forall x :: x in xs <==> x in ys
    ensures SameRoutes(LastBy(KeyOf, xs), LastBy(KeyOf, ys), opts)
  {
    forall k ensures k in LastBy(KeyOf, xs) <==> k in LastBy(KeyOf, ys) {
      LastByExactly(KeyOf, xs, k);
      LastByExactly(KeyOf, ys, k);
    }
    assert LastBy(KeyOf, xs).Keys == LastBy(KeyOf, ys).Keys;
    forall k | k in LastBy(KeyOf, xs)
      ensures AppRoutes(LastBy(KeyOf, xs)[k], opts) == AppRoutes(LastBy(KeyOf, ys)[k], opts)
    {
      LastByExactly(KeyOf, xs, k);
      LastByExactly(KeyOf, ys, k);
    }
  }

  lemma SameRoutesSameList(
    xs: seq<App>, ys: seq<App>, opts: Options, out: seq<IngressRoute>, out': seq<IngressRoute>)
    requires SameRoutes(LastBy(KeyOf, xs), LastBy(KeyOf, ys), opts)
    requires Compiled(xs, opts, out) && Compiled(ys, opts, out')
    ensures out == out'
  {
    var x, y := LastBy(KeyOf, xs), LastBy(KeyOf, ys);
    var order :| Ascending(order) && Elements(order) == x.Keys && out == FlatMap(order, RoutesOf(x, opts));
    var order' :| Ascending(order') && Elements(order') == y.Keys && out' == FlatMap(order', RoutesOf(y, opts));
    AscendingUnique(order, order');
    FlatMapAgrees(order, RoutesOf(x, opts), RoutesOf(y, opts));
  }

  /** The compiled route list does not depend on the order in which the apps are listed, nor on how often: any two
      compilations of the same apps give the same list, if apps with one sort key compile to the same routes. */
  lemma CompiledListForgetsOrder(apps: seq<App>, other: seq<App>, opts: Options, out: seq<IngressRoute>, out': seq<IngressRoute>)
    requires Interchangeable(apps, opts) && forall a :: a in apps <==> a in other
    requires Compiled(apps, opts, out) && Compiled(other, opts, out')
    ensures out == out'
  {
    LastByForgetsOrder(apps, other, opts);
    SameRoutesSameList(apps, other, opts, out, out');
  }

  lemma DistinctIsInterchangeable(apps: seq<App>, opts: Options)
    requires DistinctBy(KeyOf, apps)
    ensures Interchangeable(apps, opts)
  {}

  // ---- and when the order does matter ----

  /** Every order of the listing compiles to the same route list. */
  ghost predicate OrderFree(apps: seq<App>, opts: Options) {
    forall xs, ys, out, out' |
      && Compiled(xs, opts, out) && Compiled(ys, opts, out')
      && multiset(xs) == multiset(apps) == multiset(ys) :: out == out'
  }

  function MoveLast<T>(xs: seq<T>, i: nat): seq<T>
    requires i < |xs|
  {
    xs[..i] + xs[i + 1..] + [xs[i]]
  }

  lemma MoveLastPermutes<T>(xs: seq<T>, i: nat)
    requires i < |xs|
    ensures multiset(MoveLast(xs, i)) == multiset(xs)
  {
    assert xs == xs[..i] + [xs[i]] + xs[i + 1..];
  }

  /** Leaving out a value changes the table only under its own key. */
  lemma {:induction false} LastByWithout<T>(key: T -> Option<string>, p: seq<T>, x: T, q: seq<T>, k: string)
    requires key(x) != Some(k)
    ensures var whole, part := LastBy(key, p + [x] + q), LastBy(key, p + q);
      (k in whole <==> k in part) && (k in whole ==> whole[k] == part[k])
    decreases |q|
  {
    if q == [] {
      assert p + [x] + q == p + [x] && p + q == p && (p + [x])[..|p|] == p;
    } else {
      var n := |q| - 1;
      assert (p + [x] + q)[..|p| + 1 + n] == p + [x] + q[..n] && (p + q)[..|p| + n] == p + q[..n];
      LastByWithout(key, p, x, q[..n], k);
    }
  }

  /** Moved to the end, a value is the one stored under its key, and no other key is affected. */
  lemma LastByMoved<T>(key: T -> Option<string>, xs: seq<T>, i: nat, k: string)
    requires i < |xs| && key(xs[i]).Some?
    ensures var moved, whole := LastBy(key, MoveLast(xs, i)), LastBy(key, xs);
      if key(xs[i]) == Some(k) then k in moved && moved[k] == xs[i]
      else (k in moved <==> k in whole) && (k in whole ==> moved[k] == whole[k])
  {
    var p, x, q := xs[..i], xs[i], xs[i + 1..];
    assert xs == p + [x] + q;
    var m := MoveLast(xs, i);
    assert m == (p + q) + [x] && m[..|m| - 1] == p + q;
    if key(x) != Some(k) { LastByWithout(key, p, x, q, k); }
  }

  lemma {:induction false} FlatMapDiffers<T>(order: seq<string>, f: string -> seq<T>, g: string -> seq<T>, k: string)
    requires Distinct(order) && k in order && f(k) != g(k) && forall j | j in order && j != k :: f(j) == g(j)
    ensures FlatMap(order, f) != FlatMap(order, g)
  {
    var rest := order[1..];
    assert forall j | j in rest :: j in order;
    if order[0] == k {
      assert k !in rest;
      FlatMapAgrees(rest, f, g);
      SameTail(f(k), g(k), FlatMap(rest, f));
    } else {
      assert k in rest by { assert order == [order[0]] + rest; }
      assert Distinct(rest);
      FlatMapDiffers(rest, f, g, k);
      SameHead(f(order[0]), FlatMap(rest, f), FlatMap(rest, g));
    }
  }

  lemma SameTail<T>(a: seq<T>, b: seq<T>, t: seq<T>)
    requires a != b
    ensures a + t != b + t
  {
    assert (a + t)[..|a|] == a && (b + t)[..|b|] == b;
    assert |a + t| == |a| + |t| && |b + t| == |b| + |t|;
  }

  lemma SameHead<T>(h: seq<T>, a: seq<T>, b: seq<T>)
    requires a != b
    ensures h + a != h + b
  {
    assert (h + a)[|h|..] == a && (h + b)[|h|..] == b;
  }

  /** Two apps with one sort key and different routes: putting one or the other last changes the list. */
  lemma OrderMatters(apps: seq<App>, opts: Options, i: nat, j: nat)
    requires i < |apps| && j < |apps| && KeyOf(apps[i]).Some? && KeyOf(apps[i]) == KeyOf(apps[j])
    requires AppRoutes(apps[i], opts) != AppRoutes(apps[j], opts)
    ensures !OrderFree(apps, opts)
  {
    var k, xs, ys := KeyOf(apps[i]).value, MoveLast(apps, i), MoveLast(apps, j);
    var x, y := LastBy(KeyOf, xs), LastBy(KeyOf, ys);
    forall m ensures (m in x <==> m in y) && (m in x && m != k ==> x[m] == y[m]) && (m == k ==> m in x) {
      LastByMoved(KeyOf, apps, i, m);
      LastByMoved(KeyOf, apps, j, m);
    }
    LastByMoved(KeyOf, apps, i, k);
    LastByMoved(KeyOf, apps, j, k);
    assert x.Keys == y.Keys;
    var order := ListingExists(x.Keys);
    AscendingDistinct(order);
    assert forall m :: m in Elements(order) <==> m in order;
    FlatMapDiffers(order, RoutesOf(x, opts), RoutesOf(y, opts), k);
    MoveLastPermutes(apps, i);
    MoveLastPermutes(apps, j);
    TwoLists(apps, xs, ys, opts, FlatMap(order, RoutesOf(x, opts)), FlatMap(order, RoutesOf(y, opts)));
  }

  lemma TwoLists(
    apps: seq<App>, xs: seq<App>, ys: seq<App>, opts: Options, out: seq<IngressRoute>, out': seq<IngressRoute>)
    requires Compiled(xs, opts, out) && Compiled(ys, opts, out') && out != out'
    requires multiset(xs) == multiset(apps) == multiset(ys)
    ensures !OrderFree(apps, opts)
  {}

  /** The exact condition: every order of the listing compiles to the same routes if and only if any two listed apps
      with one sort key compile to the same routes. */
  lemma OrderFreeExactly(apps: seq<App>, opts: Options)
    ensures OrderFree(apps, opts) <==> Interchangeable(apps, opts)
  {
    if Interchangeable(apps, opts) {
      forall xs, ys, out, out' |
        && Compiled(xs, opts, out) && Compiled(ys, opts, out')
        && multiset(xs) == multiset(apps) == multiset(ys) ensures out == out'
      {
        assert forall a :: a in xs <==> a in multiset(xs);
        assert forall a :: a in ys <==> a in multiset(ys);
        assert forall a :: a in apps <==> a in multiset(apps);
        assert Interchangeable(xs, opts);
        CompiledListForgetsOrder(xs, ys, opts, out, out');
      }
    } else {
      var a, b :| a in apps && b in apps && KeyOf(a).Some? && KeyOf(a) == KeyOf(b) && AppRoutes(a, opts) != AppRoutes(b, opts);
      var i :| 0 <= i < |apps| && apps[i] == a;
      var j :| 0 <= j < |apps| && apps[j] == b;
      OrderMatters(apps, opts, i, j);
    }
  }

  /** Two apps with one sort key have one deploy key exactly when both or neither have a blank namespace; if
      they do not, the other namespace starts with a slash. */
  lemma SortKeyVersusDeployKey(a: Metadata, b: Metadata)
    requires SortKey(a) == SortKey(b)
    ensures DeployAppMapKey(a) == DeployAppMapKey(b) <==>
      (TrimSpace(a.namespace) == "" <==> TrimSpace(b.namespace) == "")
    ensures DeployAppMapKey(a) == DeployAppMapKey(b) ||
      HasPrefix(TrimSpace(a.namespace), "/") || HasPrefix(TrimSpace(b.namespace), "/")
  {
    var p, q, m, n := TrimSpace(a.namespace), TrimSpace(b.namespace), TrimSpace(a.name), TrimSpace(b.name);
    var s := SortKey(a);
    assert s == p + "/" + m == q + "/" + n;
    assert p == "" ==> s[0] == '/' && s[1..] == m && DeployAppMapKey(a)[0] == 'd';
    assert q == "" ==> s[0] == '/' && s[1..] == n && DeployAppMapKey(b)[0] == 'd';
    assert p != "" ==> s[0] == p[0] && DeployAppMapKey(a) == s;
    assert q != "" ==> s[0] == q[0] && DeployAppMapKey(b) == s;
  }

  /** The slash condition is needed: these two apps have distinct deploy keys and one sort key. */
  lemma SlashNamespaceAliases()
    ensures var a, b := Metadata("x/y", "", Nil, Nil), Metadata("y", "/x", Nil, Nil);
      DeployAppMapKey(a) != DeployAppMapKey(b) && SortKey(a) == SortKey(b)
  {
    var n, m, s := "x/y", "y", "/x";
    assert !IsSpace(n[0]) && !IsSpace(n[|n| - 1]) && !IsSpace(m[0]) && !IsSpace(s[0]) && !IsSpace(s[|s| - 1]);
    assert TrimSpace(n) == n && TrimSpace(m) == m && TrimSpace(s) == s;
    var a, b := Metadata(n, "", Nil, Nil), Metadata(m, s, Nil, Nil);
    assert SortKey(a) == "/x/y" && SortKey(b) == "/x/y";
    assert DeployAppMapKey(a)[0] == 'd' && DeployAppMapKey(b)[0] == '/';
  }

  /** Such a pair changes the list: stored under distinct deploy keys, one with a route that compiles and one without
      any, they compile to different lists in different orders. */
  lemma SlashNamespaceReorders(opts: Options, b: App, route: Route)
    requires b.meta == Metadata("y", "/x", Nil, Nil) && b.ingresses == [[route]]
    requires CompileRoute(b, opts, route).Some?
    ensures var a := App(Metadata("x/y", "", Nil, Nil), [], [], "");
      DeployAppMapKey(a.meta) != DeployAppMapKey(b.meta) && !OrderFree([a, b], opts)
  {
    var a := App(Metadata("x/y", "", Nil, Nil), [], [], "");
    SlashNamespaceAliases();
    OneRoute(b, opts, route);
    AliasesHaveKeys();
    assert AppRoutes(a, opts) == [];
    OrderMatters([a, b], opts, 0, 1);
  }

  lemma AliasesHaveKeys()
    ensures TrimSpace("x/y") != "" && TrimSpace("y") != ""
  {
    var n, m := "x/y", "y";
    assert !IsSpace(n[0]) && !IsSpace(n[|n| - 1]) && !IsSpace(m[0]);
    assert TrimSpace(n) == n && TrimSpace(m) == m;
  }

  lemma OneRoute(app: App, opts: Options, route: Route)
    requires app.ingresses == [[route]] && CompileRoute(app, opts, route).Some?
    ensures AppRoutes(app, opts) != []
  {
    assert [route][1..] == [] && [[route]][1..] == [];
    assert CompileRoutes(app, opts, [route]) == [CompileRoute(app, opts, route).value] + CompileRoutes(app, opts, []);
  }

  // ---- what one route compiles to ----

  /** The backend of a route: the last workload of the app with the trimmed name, and in it the first endpoint with
      the trimmed name, which speaks HTTP at a positive port. */
  ghost predicate Backend(app: App, route: Route, j: int, i: int) {
    && 0 <= j < |app.workloads| && TrimSpace(app.workloads[j].name) == TrimSpace(route.workload)
    && (forall k | j < k < |app.workloads| :: TrimSpace(app.workloads[k].name) != TrimSpace(route.workload))
    && var es := app.workloads[j].endpoints;
    && 0 <= i < |es| && TrimSpace(es[i].name) == TrimSpace(route.endpoint)
    && (forall k | 0 <= k < i :: TrimSpace(es[k].name) != TrimSpace(route.endpoint))
    && (es[i].protocol == "" || es[i].protocol == "http") && es[i].port > 0
  }

  /** The workload runs, by its replicated assignment, on another node whose ingress is known. */
  ghost predicate Remote(app: App, opts: Options, route: Route, base: string) {
    && opts.assignments.Some?
    && var a := opts.assignments.value(AssignmentKey(app.meta, TrimSpace(route.workload)));
    && a.Some? && a.value.status == "running" && TrimSpace(a.value.node) != ""
    && TrimSpace(a.value.node) != TrimSpace(opts.localNode)
    && opts.nodeBase(TrimSpace(a.value.node)) == Some(base)
  }

  /** DNS knows the workload's address. */
  ghost predicate Local(app: App, opts: Options, route: Route, ip: string) {
    && opts.dns.Some?
    && opts.dns.value(TrimSpace(app.meta.namespace), TrimSpace(route.workload)) == Some(ip)
  }

  ghost predicate PathOf(route: Route, prefix: string) {
    var t := TrimSpace(route.path);
    t != "" && prefix == if HasPrefix(t, "/") then t else "/" + t
  }

  /** Where a route with that backend goes: to another node's ingress, unchanged; else to the local workload, at the
      backend's port and stripped of its prefix. */
  ghost predicate GoesTo(app: App, opts: Options, route: Route, j: int, i: int, r: IngressRoute) {
    && Backend(app, route, j, i)
    && if exists base :: Remote(app, opts, route, base)
       then r.stripPrefix == "/" && Remote(app, opts, route, r.upstream)
       else
         && r.stripPrefix == ""
         && exists ip :: Local(app, opts, route, ip)
              && r.upstream == "http://" + ip + ":" + Itoa(app.workloads[j].endpoints[i].port)
  }

  /** A route compiles to a row exactly when its path is not blank and it has a backend that the row leads to. */
  lemma RouteCompilesExactly(app: App, opts: Options, route: Route, r: IngressRoute)
    ensures CompileRoute(app, opts, route) == Some(r) <==>
      PathOf(route, r.pathPrefix) && exists j, i :: GoesTo(app, opts, route, j, i, r)
  {
    if CompileRoute(app, opts, route) == Some(r) { CompiledGoesTo(app, opts, route, r); }
    if PathOf(route, r.pathPrefix) && exists j, i :: GoesTo(app, opts, route, j, i, r) {
      var j, i :| GoesTo(app, opts, route, j, i, r);
      GoesToCompiles(app, opts, route, j, i, r);
    }
  }

  lemma BackendFound(app: App, route: Route, j: int, i: int)
    requires Backend(app, route, j, i)
    ensures FindWorkload(app.workloads, TrimSpace(route.workload)) == Some(app.workloads[j])
    ensures EndpointPort(app.workloads[j].endpoints, TrimSpace(route.endpoint)) ==
      Some(app.workloads[j].endpoints[i].port)
  {
    var ws, es := app.workloads, app.workloads[j].endpoints;
    var named, called := WorkloadNamed(TrimSpace(route.workload)), EndpointNamed(TrimSpace(route.endpoint));
    assert named(ws[j]) && forall k | j < k < |ws| :: !named(ws[k]);
    assert LastIndex(ws, named) == j + 1;
    assert called(es[i]) && forall k | 0 <= k < i :: !called(es[k]);
    assert FirstIndex(es, called) == i;
  }

  lemma FoundBackend(app: App, route: Route) returns (j: int, i: int)
    requires var w := FindWorkload(app.workloads, TrimSpace(route.workload));
      w.Some? && EndpointPort(w.value.endpoints, TrimSpace(route.endpoint)).Some?
    ensures Backend(app, route, j, i)
    ensures FindWorkload(app.workloads, TrimSpace(route.workload)) == Some(app.workloads[j])
    ensures EndpointPort(app.workloads[j].endpoints, TrimSpace(route.endpoint)) ==
      Some(app.workloads[j].endpoints[i].port)
  {
    var ws := app.workloads;
    var named, called := WorkloadNamed(TrimSpace(route.workload)), EndpointNamed(TrimSpace(route.endpoint));
    j := LastIndex(ws, named) - 1;
    i := FirstIndex(ws[j].endpoints, called);
    assert named(ws[j]) && called(ws[j].endpoints[i]);
    assert forall k | j < k < |ws| :: !named(ws[k]);
    assert forall k | 0 <= k < i :: !called(ws[j].endpoints[k]);
  }

  lemma TargetGoes(app: App, opts: Options, route: Route, port: int, t: Target)
    ensures WorkloadTarget(app, opts, TrimSpace(route.workload), port) == Some(t) <==>
      if exists base :: Remote(app, opts, route, base)
      then t.stripPrefix == "/" && Remote(app, opts, route, t.upstream)
      else t.stripPrefix == "" && exists ip :: Local(app, opts, route, ip) && t.upstream == "http://" + ip + ":" + Itoa(port)
  {
    var name := TrimSpace(route.workload);
    RemoteFound(app, opts, route);
    if !(exists base :: Remote(app, opts, route, base)) {
      assert RemoteUpstream(app, opts, name).None?;
      assert forall ip :: Local(app, opts, route, ip) <==>
        opts.dns.Some? && opts.dns.value(TrimSpace(app.meta.namespace), name) == Some(ip);
    }
  }

  lemma RemoteFound(app: App, opts: Options, route: Route)
    ensures var u := RemoteUpstream(app, opts, TrimSpace(route.workload));
      && (u.Some? <==> exists base :: Remote(app, opts, route, base))
      && forall base :: Remote(app, opts, route, base) <==> u == Some(base)
  {
    var u := RemoteUpstream(app, opts, TrimSpace(route.workload));
    assert u.Some? ==> Remote(app, opts, route, u.value);
  }

  lemma CompiledGoesTo(app: App, opts: Options, route: Route, r: IngressRoute)
    requires CompileRoute(app, opts, route) == Some(r)
    ensures PathOf(route, r.pathPrefix) && exists j, i :: GoesTo(app, opts, route, j, i, r)
  {
    var j, i := FoundBackend(app, route);
    TargetGoes(app, opts, route, app.workloads[j].endpoints[i].port, Target(r.upstream, r.stripPrefix));
    assert GoesTo(app, opts, route, j, i, r);
  }

  lemma GoesToCompiles(app: App, opts: Options, route: Route, j: int, i: int, r: IngressRoute)
    requires PathOf(route, r.pathPrefix) && GoesTo(app, opts, route, j, i, r)
    ensures CompileRoute(app, opts, route) == Some(r)
  {
    BackendFound(app, route, j, i);
    TargetGoes(app, opts, route, app.workloads[j].endpoints[i].port, Target(r.upstream, r.stripPrefix));
  }

  // ---- what one app compiles to ----

  /** The routes of an app in the order in which they are listed. */
  function Listed(ingresses: seq<seq<Route>>): seq<Route> {
    if ingresses == [] then [] else ingresses[0] + Listed(ingresses[1..])
  }

  function RowOf(app: App, opts: Options): Route -> Option<IngressRoute> { (r: Route) => CompileRoute(app, opts, r) }

  lemma {:induction false} RoutesPicked(app: App, opts: Options, routes: seq<Route>) returns (at: seq<int>)
    ensures Picks(routes, RowOf(app, opts), CompileRoutes(app, opts, routes), at)
  {
    if routes == [] {
      at := [];
    } else {
      var first, rest := routes[0], routes[1..];
      var q := RoutesPicked(app, opts, rest);
      var p := OnePicked(RowOf(app, opts), first);
      var x := AsSeq(RowOf(app, opts)(first));
      at := PicksAppend(RowOf(app, opts), [first], x, p, rest, CompileRoutes(app, opts, rest), q);
      assert routes == [first] + rest;
      assert CompileRoutes(app, opts, routes) == x + CompileRoutes(app, opts, rest);
    }
  }

  lemma {:induction false} IngressesPicked(app: App, opts: Options, ingresses: seq<seq<Route>>) returns (at: seq<int>)
    ensures Picks(Listed(ingresses), RowOf(app, opts), CompileApp(app, opts, ingresses), at)
  {
    if ingresses == [] {
      at := [];
    } else {
      var p := RoutesPicked(app, opts, ingresses[0]);
      var q := IngressesPicked(app, opts, ingresses[1..]);
      at := PicksAppend(RowOf(app, opts), ingresses[0], CompileRoutes(app, opts, ingresses[0]), p,
                        Listed(ingresses[1..]), CompileApp(app, opts, ingresses[1..]), q);
    }
  }

  /** An app's rows are those of all its listed routes that compile, in listed order. */
  lemma AppRoutesExactly(app: App, opts: Options)
    ensures exists at :: Picks(Listed(app.ingresses), RowOf(app, opts), AppRoutes(app, opts), at)
  {
    var at := IngressesPicked(app, opts, app.ingresses);
    assert Picks(Listed(app.ingresses), RowOf(app, opts), AppRoutes(app, opts), at);
  }

  // ---- forwarding ----

  /** A node forwards a route, by the strip prefix `/`, exactly when the workload runs on another node whose
      ingress it knows; it then sends it to that node. */
  lemma ForwardsExactlyWhen(app: App, opts: Options, route: Route)
    requires CompileRoute(app, opts, route).Some?
    ensures var r := CompileRoute(app, opts, route).value;
      r.stripPrefix in {"", "/"} && (r.stripPrefix == "/" <==> Remote(app, opts, route, r.upstream))
  {
    var r := CompileRoute(app, opts, route).value;
    CompiledGoesTo(app, opts, route, r);
  }

  /** Nodes that agree on the assignments forward a route at most once: the node it is forwarded to never
      forwards it again. */
  lemma ForwardedOnce(app: App, first: Options, second: Options, route: Route)
    requires first.assignments == second.assignments
    requires CompileRoute(app, first, route).Some? && CompileRoute(app, first, route).value.stripPrefix == "/"
    requires RunningNode(app, first, TrimSpace(route.workload)) == Some(TrimSpace(second.localNode))
    ensures CompileRoute(app, second, route).Some? ==>
      && CompileRoute(app, second, route).value.stripPrefix == ""
      && CompileRoute(app, second, route).value.pathPrefix == CompileRoute(app, first, route).value.pathPrefix
  {
  }

  /** An upstream determines the address and the port it was made from. */
  lemma UpstreamInjective(ip: string, port: int, ip': string, port': int)
    requires "http://" + ip + ":" + Itoa(port) == "http://" + ip' + ":" + Itoa(port')
    ensures ip == ip' && port == port'
  {
    var h := "http://";
    LastSeparator(h + ip, Itoa(port), h + ip', Itoa(port'), ':');
    assert ip == (h + ip)[|h|..] && ip' == (h + ip')[|h|..];
    ItoaInjective(port, port');
  }

  lemma LocalRouteHasUpstream(app: App, opts: Options, route: Route)
    requires CompileRoute(app, opts, route).Some? && CompileRoute(app, opts, route).value.stripPrefix == ""
    ensures HasUpstream(CompileRoute(app, opts, route).value)
  {
    var u := CompileRoute(app, opts, route).value.upstream;
    assert u[0] == 'h' && IsDigit(u[|u| - 1]);
    assert !IsSpace(u[0]) && !IsSpace(u[|u| - 1]);
  }

  /** End to end: compile the same route on a forwarding node and on the assigned node, and send any rooted
      request through both. The upstream receives the same path as when the request goes to the assigned node
      directly, and the forwarding node answers 404 exactly when the assigned one would. */
  lemma ForwardedRequestIsServedAlike(app: App, first: Options, second: Options, route: Route, urlPath: string)
    requires first.assignments == second.assignments && Rooted(urlPath)
    requires CompileRoute(app, first, route).Some? && CompileRoute(app, first, route).value.stripPrefix == "/"
    requires RunningNode(app, first, TrimSpace(route.workload)) == Some(TrimSpace(second.localNode))
    requires CompileRoute(app, second, route).Some?
    requires HasUpstream(CompileRoute(app, first, route).value)
    ensures var a, b := NewRouteMeta(CompileRoute(app, first, route).value), NewRouteMeta(CompileRoute(app, second, route).value);
      && a.Some? && b.Some?
      && (Rewrite(a.value, urlPath).Some? <==> Rewrite(b.value, urlPath).Some?)
      && (Rewrite(a.value, urlPath).Some? ==>
            Rewrite(b.value, Rewrite(a.value, urlPath).value) == Rewrite(b.value, urlPath))
  {
    ForwardedOnce(app, first, second, route);
    LocalRouteHasUpstream(app, second, route);
    TwoHopsEqualOne(CompileRoute(app, first, route).value, CompileRoute(app, second, route).value, urlPath);
  }
}
