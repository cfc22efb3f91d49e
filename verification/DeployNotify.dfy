/** The deploy wake-up channel: capacity one, non-blocking send, any number of receivers. */
module DeployNotify {
  import opened Common
  import opened GoStrings
  import opened DeployModel
  import opened SchedulingState
  import Snapshots

  /** `sending` marks an entry whose tables are written but whose notification is not yet sent; the state
      machine's lock is held meanwhile. */
  datatype Node = Node(fsm: State, token: bool, sending: bool)

  datatype Event =
    | Write(command: Command)   // an entry changes the tables, under the lock
    | Send                      // the non-blocking send of the same entry, then unlock
    | Receive                   // some loop takes the token
    | Install(state: State)     // a snapshot replaces the state, under the lock, without a send

  predicate Enabled(n: Node, e: Event) {
    match e
    case Write(_) => !n.sending
    case Send => n.sending
    case Receive => n.token
    case Install(_) => !n.sending
  }

  function Apply(gen: Gen, n: Node, e: Event): Node {
    match e
    case Write(c) => n.(fsm := Step(gen, n.fsm, c), sending := Notifies(c))
    case Send => n.(token := true, sending := false)
    case Receive => n.(token := false)
    case Install(s) => n.(fsm := s)
  }

  function Start(): Node { Node(Init(), false, false) }

  /** The node after the first `k` events. */
  function At(gen: Gen, events: seq<Event>, k: nat): Node
    requires k <= |events|
  {
    if k == 0 then Start() else Apply(gen, At(gen, events, k - 1), events[k - 1])
  }

  /** Every event could happen when it did. */
  ghost predicate Run(gen: Gen, events: seq<Event>) {
    forall k | 0 <= k < |events| :: Enabled(At(gen, events, k), events[k])
  }

  /** No lost wake-up: after any send, at any later time, the token is still there or someone has received
      it since. */
  lemma {:induction false} NoLostWakeUp(gen: Gen, events: seq<Event>, sent: nat, now: nat)
    requires sent < now <= |events| && events[sent].Send?
    ensures At(gen, events, now).token || exists r :: sent < r < now && events[r].Receive?
    decreases now
  {
    if now > sent + 1 {
      NoLostWakeUp(gen, events, sent, now - 1);
      if events[now - 1].Receive? {
        assert sent < now - 1 < now;
      }
    }
  }

  ghost predicate Unreceived(events: seq<Event>, sent: int, now: int) {
    forall r | 0 <= sent < r < now <= |events| :: !events[r].Receive?
  }

  /** No wake-up from nowhere: the token is there exactly when some send has not been received since. */
  lemma {:induction false} TokenComesFromSend(gen: Gen, events: seq<Event>, now: nat)
    requires now <= |events|
    ensures At(gen, events, now).token <==>
      exists s | 0 <= s < now :: events[s].Send? && Unreceived(events, s, now)
  {
    if now > 0 {
      TokenComesFromSend(gen, events, now - 1);
      var e := events[now - 1];
      if e.Send? {
        assert Unreceived(events, now - 1, now);
      } else if e.Receive? {
        forall s | 0 <= s < now && events[s].Send? ensures !Unreceived(events, s, now) {
          assert s < now - 1 < now;
        }
      } else if At(gen, events, now - 1).token {
        var s :| 0 <= s < now - 1 && events[s].Send? && Unreceived(events, s, now - 1);
        assert Unreceived(events, s, now);
      } else {
        forall s | 0 <= s < now && events[s].Send? ensures !Unreceived(events, s, now) {
          assert !Unreceived(events, s, now - 1);
        }
      }
    }
  }

  /** Only entries that notify change the desired apps. */
  lemma QuietEntriesKeepApps(gen: Gen, s: State, c: Command)
    requires !Notifies(c)
    ensures Step(gen, s, c).apps == s.apps
  {
  }

  /** Whether an entry is half applied, read off the events alone. */
  predicate SendingAt(events: seq<Event>, k: nat)
    requires k <= |events|
  {
    k > 0 &&
    match events[k - 1]
    case Write(c) => Notifies(c)
    case Send => false
    case _ => SendingAt(events, k - 1)
  }

  lemma {:induction false} SendingIsAt(gen: Gen, events: seq<Event>, k: nat)
    requires k <= |events|
    ensures At(gen, events, k).sending == SendingAt(events, k)
    decreases k
  {
    if k > 0 { SendingIsAt(gen, events, k - 1); }
  }

  /** The send of the entry written at `w` comes at `s`, which is `now` if it is still due, and until then
      nothing but receives happens. */
  ghost predicate SentAt(events: seq<Event>, w: nat, s: nat, now: nat)
    requires now <= |events|
  {
    && w < s <= now
    && (if s == now then SendingAt(events, now) else events[s].Send?)
    && forall k | w < k < s :: events[k].Receive?
  }

  lemma {:induction false} SentAfter(events: seq<Event>, w: nat, now: nat) returns (s: nat)
    requires w < now <= |events| && events[w].Write? && Notifies(events[w].command)
    requires forall k | w < k < now :: SendingAt(events, k) ==> events[k].Send? || events[k].Receive?
    ensures SentAt(events, w, s, now)
    decreases now
  {
    s := now;
    if now > w + 1 { s := SentAfter(events, w, now - 1); }
    if s == now - 1 && events[s].Receive? { s := now; }
  }

  /** A write that notifies is followed by its send before anything else takes the lock: up to its send, only
      receives happen, and they take no lock. */
  lemma WriteIsSent(gen: Gen, events: seq<Event>, w: nat, now: nat)
    requires Run(gen, events) && w < now <= |events|
    requires events[w].Write? && Notifies(events[w].command)
    ensures exists s: nat :: SentAt(events, w, s, now)
    ensures At(gen, events, now).sending == SendingAt(events, now)
  {
    forall k | w < k < now && SendingAt(events, k) ensures events[k].Send? || events[k].Receive? {
      SendingIsAt(gen, events, k);
      assert Enabled(At(gen, events, k), events[k]);
    }
    var s := SentAfter(events, w, now);
    SendingIsAt(gen, events, now);
  }

  /** An upsert or a delete of an app that has a name. */
  predicate ChangesApp(c: Command) {
    match c
    case UpsertApp(app) => TrimSpace(app.meta.name) != ""
    case DeleteApp(meta) => TrimSpace(meta.name) != ""
    case _ => false
  }

  lemma {:induction false} SendingComesFrom(events: seq<Event>, k: nat) returns (w: nat)
    requires k <= |events| && SendingAt(events, k)
    requires forall j | 0 <= j < k && SendingAt(events, j) :: !events[j].Install?
    ensures w < k && events[w].Write? && ChangesApp(events[w].command)
    ensures forall j | w < j < k :: events[j].Receive?
    decreases k
  {
    w := k - 1;
    if !events[w].Write? { w := SendingComesFrom(events, k - 1); }
  }

  /** Nothing is sent without a change: every send follows a named upsert or delete, with nothing but receives in
      between. */
  lemma SendComesFromChange(gen: Gen, events: seq<Event>, s: nat)
    requires Run(gen, events) && s < |events| && events[s].Send?
    ensures exists w | 0 <= w < s ::
      && events[w].Write? && ChangesApp(events[w].command)
      && forall j | w < j < s :: events[j].Receive?
  {
    forall j | 0 <= j <= s ensures At(gen, events, j).sending == SendingAt(events, j) { SendingIsAt(gen, events, j); }
    assert Enabled(At(gen, events, s), events[s]);
    forall j | 0 <= j < s && SendingAt(events, j) ensures !events[j].Install? {
      assert Enabled(At(gen, events, j), events[j]);
    }
    var w := SendingComesFrom(events, s);
  }

  /** The wake-up property: at any time after an applied upsert or delete, its notification is being sent, or the
      token is in the channel, or some receive happened after the entry was applied. */
  lemma AppliedChangeWakes(gen: Gen, events: seq<Event>, w: nat, now: nat)
    requires Run(gen, events) && w < now <= |events|
    requires events[w].Write? && ChangesApp(events[w].command)
    ensures
      || At(gen, events, now).sending || At(gen, events, now).token
      || exists r :: w < r < now && events[r].Receive?
  {
    WriteIsSent(gen, events, w, now);
    var s: nat :| SentAt(events, w, s, now);
    if s < now && !At(gen, events, now).token {
      NoLostWakeUp(gen, events, s, now);
      var r :| s < r < now && events[r].Receive?;
      assert w < r < now;
    }
  }

  predicate Announced(e: Event) { e.Write? && Notifies(e.command) }

  lemma QuietEventsKeepApps(gen: Gen, n: Node, e: Event)
    requires !e.Install? && !Announced(e)
    ensures Apply(gen, n, e).fsm.apps == n.fsm.apps
  {
    if e.Write? { QuietEntriesKeepApps(gen, n.fsm, e.command); }
  }

  /** The last snapshot installed at or after `look`. */
  function LastInstall(events: seq<Event>, look: nat, now: nat): Option<State>
    requires look <= now <= |events|
  {
    if now == look then None
    else if events[now - 1].Install? then Some(events[now - 1].state)
    else LastInstall(events, look, now - 1)
  }

  /** Without announced changes, the desired apps are those of the last snapshot installed, or as they were. */
  lemma {:induction false} UnannouncedApps(gen: Gen, events: seq<Event>, look: nat, now: nat)
    requires look <= now <= |events| && forall k | look <= k < now :: !Announced(events[k])
    ensures At(gen, events, now).fsm.apps ==
      match LastInstall(events, look, now)
      case None => At(gen, events, look).fsm.apps
      case Some(installed) => installed.apps
    decreases now
  {
    if look < now && !events[now - 1].Install? {
      UnannouncedApps(gen, events, look, now - 1);
      QuietEventsKeepApps(gen, At(gen, events, now - 1), events[now - 1]);
    }
  }

  /** With the channel empty and no entry half applied, a reader that looked after the last receive saw the
      desired apps as they are now exactly when no snapshot was installed since, or the last one installed
      holds the apps that it saw. */
  lemma ReaderAfterReceiveIsCurrent(gen: Gen, events: seq<Event>, look: nat)
    requires Run(gen, events) && look <= |events|
    requires forall r | look <= r < |events| :: !events[r].Receive?
    requires !At(gen, events, |events|).token && !At(gen, events, |events|).sending
    ensures var seen := At(gen, events, look).fsm.apps;
      At(gen, events, |events|).fsm.apps == seen <==>
        match LastInstall(events, look, |events|)
        case None => true
        case Some(installed) => installed.apps == seen
  {
    forall k | look <= k < |events| ensures !Announced(events[k]) {
      if Announced(events[k]) { AppliedChangeWakes(gen, events, k, |events|); }
    }
    UnannouncedApps(gen, events, look, |events|);
  }

  lemma RestoredHoldsApp(gen: Gen, app: App)
    requires TrimSpace(app.meta.name) != ""
    ensures DeployAppMapKey(app.meta)
      in Entries(Snapshots.Load(Snapshots.Save(Step(gen, Init(), UpsertApp(app)))).apps)
  {
    var saved := Step(gen, Init(), UpsertApp(app));
    assert DeployAppMapKey(app.meta) in Entries(saved.apps);
    Snapshots.RestoreAgrees(saved);
  }

  lemma InstallRuns(gen: Gen, s: State)
    ensures var events := [Install(s)];
      Run(gen, events) && At(gen, events, 0) == Start() && At(gen, events, 1) == Start().(fsm := s)
  {
    assert At(gen, [Install(s)], 0) == Start();
  }

  /** Installing a snapshot is not announced: a new replica that installs the snapshot of one that applied a
      single upsert has that app, and an empty channel. */
  lemma InstallIsSilent(gen: Gen, app: App)
    requires TrimSpace(app.meta.name) != ""
    ensures var events := [Install(Snapshots.Load(Snapshots.Save(Step(gen, Init(), UpsertApp(app)))))];
      && Run(gen, events)
      && !At(gen, events, 1).token && !At(gen, events, 1).sending
      && DeployAppMapKey(app.meta) in Entries(At(gen, events, 1).fsm.apps)
      && Entries(At(gen, events, 0).fsm.apps) == map[]
  {
    var restored := Snapshots.Load(Snapshots.Save(Step(gen, Init(), UpsertApp(app))));
    RestoredHoldsApp(gen, app);
    InstallRuns(gen, restored);
  }
}
