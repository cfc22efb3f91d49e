/** The stored revisions of an app, related to the log that produced them. */
module RevisionHistory {
  import opened Common
  import opened GoStrings
  import opened DeployModel
  import opened SchedulingState

  // ---- the reference definition ----

  /** The app's namespace, `default` if blank, and its name, joined by a slash. */
  predicate NamesKey(m: Metadata, key: string) {
    && TrimSpace(m.name) != ""
    && key == (if TrimSpace(m.namespace) == "" then "default" else TrimSpace(m.namespace)) + "/" + TrimSpace(m.name)
  }

  predicate UpsertsKey(c: Command, key: string) { c.UpsertApp? && NamesKey(c.app.meta, key) }

  predicate DeletesKey(c: Command, key: string) { c.DeleteApp? && NamesKey(c.meta, key) }

  /** The apps upserted under `key` since its last delete. */
  function Upserts(log: seq<Command>, key: string): seq<App>
    decreases |log|
  {
    if log == [] then []
    else
      var earlier, c := Upserts(log[..|log| - 1], key), log[|log| - 1];
      if UpsertsKey(c, key) then earlier + [c.app] else if DeletesKey(c, key) then [] else earlier
  }

  /** Runs of equal generation, each collapsed to its last app. */
  function Collapse(gen: Gen, apps: seq<App>): seq<App> {
    if |apps| <= 1 then apps
    else if gen(apps[0]) == gen(apps[1]) then Collapse(gen, apps[1..])
    else [apps[0]] + Collapse(gen, apps[1..])
  }

  /** The collapsed history without its current, last entry. */
  function Past(gen: Gen, apps: seq<App>): seq<App> {
    var c := Collapse(gen, apps);
    if c == [] then [] else c[..|c| - 1]
  }

  function AsRevisions(gen: Gen, apps: seq<App>): (r: seq<Revision>)
    ensures |r| == |apps|
    ensures forall i | 0 <= i < |apps| :: r[i] == Revision(gen(apps[i]), apps[i])
  {
    seq(|apps|, i requires 0 <= i < |apps| => Revision(gen(apps[i]), apps[i]))
  }

  // ---- collapsing ----

  lemma {:induction false} CollapseShape(gen: Gen, apps: seq<App>)
    ensures var c := Collapse(gen, apps);
      && (c == [] <==> apps == [])
      && (apps != [] ==> c[|c| - 1] == apps[|apps| - 1])
      && (apps != [] ==> gen(c[0]) == gen(apps[0]))
      && forall i | 0 <= i < |c| - 1 :: gen(c[i]) != gen(c[i + 1])
    decreases |apps|
  {
    if |apps| > 1 {
      CollapseShape(gen, apps[1..]);
      var rest := Collapse(gen, apps[1..]);
      var c := Collapse(gen, apps);
      if gen(apps[0]) != gen(apps[1]) {
        assert c == [apps[0]] + rest;
        forall i | 0 <= i < |c| - 1 ensures gen(c[i]) != gen(c[i + 1]) {
          if i > 0 { assert c[i] == rest[i - 1] && c[i + 1] == rest[i]; }
        }
      }
    }
  }

  /** Appending an app starts a new entry or replaces the current one. */
  lemma {:induction false} CollapseAppend(gen: Gen, apps: seq<App>, app: App)
    requires apps != []
    ensures var c := Collapse(gen, apps);
      && c != []
      && Collapse(gen, apps + [app]) ==
           if gen(apps[|apps| - 1]) == gen(app)
           then c[..|c| - 1] + [app] else c + [app]
    decreases |apps|
  {
    CollapseShape(gen, apps);
    var longer := apps + [app];
    if |apps| == 1 {
      assert longer[1..] == [app];
    } else {
      assert longer[1..] == apps[1..] + [app];
      assert longer[0] == apps[0] && longer[1] == apps[1];
      CollapseAppend(gen, apps[1..], app);
      CollapseShape(gen, apps[1..]);
      var rest, c := Collapse(gen, apps[1..]), Collapse(gen, apps);
      if c == [apps[0]] + rest {
        assert c[..|c| - 1] == [apps[0]] + rest[..|rest| - 1];
      }
    }
  }

  lemma {:induction false} PastAppend(gen: Gen, apps: seq<App>, app: App)
    requires apps != []
    ensures Past(gen, apps + [app]) ==
      if gen(apps[|apps| - 1]) == gen(app)
      then Past(gen, apps) else Past(gen, apps) + [apps[|apps| - 1]]
  {
    CollapseShape(gen, apps);
    CollapseAppend(gen, apps, app);
    var c, d := Collapse(gen, apps), Collapse(gen, apps + [app]);
    if gen(apps[|apps| - 1]) == gen(app) {
      assert d[..|d| - 1] == c[..|c| - 1];
    } else {
      assert d[..|d| - 1] == c == c[..|c| - 1] + [c[|c| - 1]];
    }
  }

  lemma {:induction false} LastTenAppend<T>(xs: seq<T>, x: T)
    ensures LastTen(LastTen(xs) + [x]) == LastTen(xs + [x])
  {
  }

  lemma {:induction false} AsRevisionsAppend(gen: Gen, apps: seq<App>, app: App)
    ensures AsRevisions(gen, apps + [app])
         == AsRevisions(gen, apps) + [Revision(gen(app), app)]
  {
  }

  // ---- every run ----

  function TenNewest<T>(xs: seq<T>): (r: seq<T>)
    ensures r == LastTen(xs)
  {
    if |xs| <= 10 then xs else xs[|xs| - 10..]
  }

  /** The tables hold, for `key`, exactly the last app of `apps` and the last ten entries of its past. */
  ghost predicate Represents(gen: Gen, s: State, key: string, apps: seq<App>) {
    if apps == [] then key !in Entries(s.apps) && key !in Entries(s.revisions)
    else
      && Lookup(s.apps, key) == Some(apps[|apps| - 1])
      && RevisionsAt(s, key) == TenNewest(AsRevisions(gen, Past(gen, apps)))
  }

  /** The duplicate test of appendDeployAppRevisionLocked cannot succeed: the newest stored revision is
      always of another generation than the app that is being replaced. */
  lemma {:induction false} NewestDiffers(gen: Gen, s: State, key: string, apps: seq<App>)
    requires Represents(gen, s, key, apps) && RevisionsAt(s, key) != []
    ensures Lookup(s.apps, key).Some?
    ensures var revs := RevisionsAt(s, key);
      revs[|revs| - 1].generation != gen(Lookup(s.apps, key).value)
  {
    CollapseShape(gen, apps);
    var c := Collapse(gen, apps);
    var revs := AsRevisions(gen, Past(gen, apps));
    assert gen(c[|c| - 2]) != gen(c[|c| - 1]);
    assert revs[|revs| - 1].app == c[|c| - 2];
  }

  /** One upsert, seen from its own key. */
  lemma {:induction false} UpsertEffect(gen: Gen, s: State, app: App)
    requires Sound(gen) && TrimSpace(app.meta.name) != ""
    requires var key := DeployAppMapKey(app.meta);
      RevisionsAt(s, key) != [] && Lookup(s.apps, key).Some? ==>
        RevisionsAt(s, key)[|RevisionsAt(s, key)| - 1].generation != gen(Lookup(s.apps, key).value)
    ensures var key, t := DeployAppMapKey(app.meta), ApplyApp(gen, s, app);
      var current := Lookup(s.apps, key);
      && Lookup(t.apps, key) == Some(app)
      && RevisionsAt(t, key) ==
           if current.Some? && gen(current.value) != gen(app)
           then LastTen(RevisionsAt(s, key) + [Revision(gen(current.value), current.value)])
           else RevisionsAt(s, key)
  {
  }

  lemma {:induction false} UpsertRepresents(gen: Gen, s: State, key: string, apps: seq<App>, app: App)
    requires Sound(gen)
    requires Represents(gen, s, key, apps)
    requires TrimSpace(app.meta.name) != "" && DeployAppMapKey(app.meta) == key
    ensures Represents(gen, ApplyApp(gen, s, app), key, apps + [app])
  {
    if RevisionsAt(s, key) != [] { NewestDiffers(gen, s, key, apps); }
    UpsertEffect(gen, s, app);
    if apps == [] {
      assert apps + [app] == [app];
    } else {
      PastAppend(gen, apps, app);
      var current, past := apps[|apps| - 1], Past(gen, apps);
      AsRevisionsAppend(gen, past, current);
      LastTenAppend(AsRevisions(gen, past), Revision(gen(current), current));
    }
  }

  /** An entry about another key leaves this key's rows alone. */
  lemma {:induction false} OtherKeyUntouched(gen: Gen, s: State, c: Command, key: string)
    requires !UpsertsKey(c, key) && !DeletesKey(c, key)
    ensures var t := Step(gen, s, c);
      && Lookup(t.apps, key) == Lookup(s.apps, key)
      && RevisionsAt(t, key) == RevisionsAt(s, key)
      && (key in Entries(t.revisions) <==> key in Entries(s.revisions))
  {
  }

  /** On every run, from an empty start, the stored revisions of an app are the last ten entries of its
      history: the upserts since its last delete, with runs of equal generation collapsed to their last
      app and the current run removed. */
  lemma {:induction false} StoredRevisionsAreHistory(gen: Gen, log: seq<Command>, key: string)
    requires Sound(gen)
    ensures Represents(gen, Replay(gen, Init(), log), key, Upserts(log, key))
    decreases |log|
  {
    if log != [] {
      var before, c := log[..|log| - 1], log[|log| - 1];
      StoredRevisionsAreHistory(gen, before, key);
      var s := Replay(gen, Init(), before);
      if UpsertsKey(c, key) {
        UpsertRepresents(gen, s.(applied := Increment(s.applied)), key, Upserts(before, key), c.app);
      } else if !DeletesKey(c, key) {
        OtherKeyUntouched(gen, s, c, key);
      }
    }
  }

  lemma {:induction false} UpsertsAreKeyed(log: seq<Command>, key: string)
    ensures forall a | a in Upserts(log, key) :: KeyedApp(a, key)
    decreases |log|
  {
    if log != [] { UpsertsAreKeyed(log[..|log| - 1], key); }
  }

  lemma {:induction false} CollapseKeeps(gen: Gen, apps: seq<App>)
    ensures forall a | a in Collapse(gen, apps) :: a in apps
    decreases |apps|
  {
    if |apps| > 1 {
      CollapseKeeps(gen, apps[1..]);
      assert forall a | a in apps[1..] :: a in apps;
    }
  }

  predicate KeyedApp(app: App, key: string) {
    NamesKey(app.meta, key)
  }

  /** A well-formed stored history of the app `current`. */
  ghost predicate History(gen: Gen, revs: seq<Revision>, current: App, key: string) {
    && |revs| <= 10
    && (forall i | 0 <= i < |revs| :: revs[i].generation == gen(revs[i].app) && KeyedApp(revs[i].app, key))
    && (forall i | 0 <= i < |revs| - 1 :: revs[i].generation != revs[i + 1].generation)
    && (revs != [] ==> revs[|revs| - 1].generation != gen(current))
  }

  lemma {:induction false} PastIsHistory(gen: Gen, apps: seq<App>, key: string)
    requires apps != [] && forall a | a in apps :: KeyedApp(a, key)
    ensures History(gen, LastTen(AsRevisions(gen, Past(gen, apps))), apps[|apps| - 1], key)
  {
    CollapseShape(gen, apps);
    CollapseKeeps(gen, apps);
    var c, all := Collapse(gen, apps), AsRevisions(gen, Past(gen, apps));
    var revs := LastTen(all);
    var skip := |all| - |revs|;
    forall i | 0 <= i < |revs| ensures revs[i].app == c[skip + i] && revs[i].generation == gen(c[skip + i]) {
      assert revs[i] == all[skip + i];
    }
    forall i | 0 <= i < |revs| - 1 ensures revs[i].generation != revs[i + 1].generation {
      assert gen(c[skip + i]) != gen(c[skip + i + 1]);
    }
    if revs != [] {
      assert skip + |revs| == |c| - 1;
      assert gen(c[|c| - 2]) != gen(c[|c| - 1]);
      assert revs[|revs| - 1].app == c[skip + (|revs| - 1)] == c[|c| - 2];
    }
  }

  ghost predicate Consistent(gen: Gen, s: State, key: string) {
    if key in Entries(s.apps)
    then KeyedApp(Entries(s.apps)[key], key) && History(gen, RevisionsAt(s, key), Entries(s.apps)[key], key)
    else key !in Entries(s.revisions)
  }

  lemma {:induction false} RepresentsConsistent(gen: Gen, s: State, key: string, apps: seq<App>)
    requires Represents(gen, s, key, apps) && forall a | a in apps :: KeyedApp(a, key)
    ensures Consistent(gen, s, key)
  {
    if apps != [] {
      assert apps[|apps| - 1] in apps;
      PastIsHistory(gen, apps, key);
    }
  }

  /** In every reachable state: revision rows belong to stored apps, every app and revision is stored under
      the key its metadata gives, histories hold at most ten entries, neighbouring generations differ, and
      the newest revision differs from the current app. */
  lemma {:induction false} ReachableConsistent(gen: Gen, log: seq<Command>, key: string)
    requires Sound(gen)
    ensures Consistent(gen, Replay(gen, Init(), log), key)
  {
    StoredRevisionsAreHistory(gen, log, key);
    UpsertsAreKeyed(log, key);
    RepresentsConsistent(gen, Replay(gen, Init(), log), key, Upserts(log, key));
  }

  // ---- rollback ----

  /** Upserting the app that previousDeployApp returns makes the replaced app the new previous one; doing it
      again restores exactly the app and the newest revision that were there before. Neither step touches
      another app or any other table. */
  lemma {:induction false} RollbackInvolution(gen: Gen, log: seq<Command>, key: string)
    requires Sound(gen)
    requires RevisionsAt(Replay(gen, Init(), log), key) != []
    ensures var s := Replay(gen, Init(), log);
      && Lookup(s.apps, key).Some?
      && var revs, current := RevisionsAt(s, key), Lookup(s.apps, key).value;
         var previous := revs[|revs| - 1];
         var t := Step(gen, s, UpsertApp(previous.app));
         var u := Step(gen, t, UpsertApp(current));
         var back, again := RevisionsAt(t, key), RevisionsAt(u, key);
         && Lookup(t.apps, key) == Some(previous.app)
         && back != [] && back[|back| - 1] == Revision(gen(current), current)
         && Lookup(u.apps, key) == Some(current)
         && again != [] && again[|again| - 1] == previous
         && SameElsewhere(s, t, key) && SameElsewhere(s, u, key)
  {
    var s := Replay(gen, Init(), log);
    ReachableConsistent(gen, log, key);
    var revs, current := RevisionsAt(s, key), Lookup(s.apps, key).value;
    var previous := revs[|revs| - 1];
    SwapStep(gen, s, key, previous.app);
    var t := Step(gen, s, UpsertApp(previous.app));
    SwapStep(gen, t, key, current);
    UpsertElsewhere(gen, s, previous.app, key);
    UpsertElsewhere(gen, t, current, key);
  }

  /** The same rows under every other app key, and the same other tables. */
  ghost predicate SameElsewhere(s: State, t: State, key: string) {
    && (forall other | other != key ::
          Lookup(t.apps, other) == Lookup(s.apps, other) && RevisionsAt(t, other) == RevisionsAt(s, other))
    && t.nodes == s.nodes && t.assignments == s.assignments && t.bindings == s.bindings
  }

  lemma UpsertElsewhere(gen: Gen, s: State, app: App, key: string)
    requires DeployAppMapKey(app.meta) == key
    ensures SameElsewhere(s, Step(gen, s, UpsertApp(app)), key)
  {
    forall other | other != key
      ensures Lookup(Step(gen, s, UpsertApp(app)).apps, other) == Lookup(s.apps, other)
      ensures RevisionsAt(Step(gen, s, UpsertApp(app)), other) == RevisionsAt(s, other)
    {
      UpsertFrame(gen, s, app, other);
    }
  }

  /** Upserting an app of another generation, when the newest revision is not the current app's, records the
      current app as the newest revision. */
  lemma {:induction false} SwapStep(gen: Gen, s: State, key: string, app: App)
    requires Sound(gen)
    requires Lookup(s.apps, key).Some?
    requires TrimSpace(app.meta.name) != "" && DeployAppMapKey(app.meta) == key
    requires gen(app) != gen(Lookup(s.apps, key).value)
    requires var revs := RevisionsAt(s, key);
      revs != [] ==> revs[|revs| - 1].generation != gen(Lookup(s.apps, key).value)
    ensures var t := Step(gen, s, UpsertApp(app));
      var current, revs := Lookup(s.apps, key).value, RevisionsAt(t, key);
      && Lookup(t.apps, key) == Some(app)
      && revs == LastTen(RevisionsAt(s, key) + [Revision(gen(current), current)])
      && revs != [] && revs[|revs| - 1] == Revision(gen(current), current)
  {
  }

  /** An upsert changes one app row, one revision row and the entry counter, and nothing else. */
  lemma {:induction false} UpsertFrame(gen: Gen, s: State, app: App, other: string)
    requires other != DeployAppMapKey(app.meta)
    ensures var t := Step(gen, s, UpsertApp(app));
      && Lookup(t.apps, other) == Lookup(s.apps, other)
      && RevisionsAt(t, other) == RevisionsAt(s, other)
      && t.nodes == s.nodes && t.assignments == s.assignments && t.bindings == s.bindings
  {
    OtherKeyUntouched(gen, s, UpsertApp(app), other);
  }
}
