/** The index of published workload records, kept in step with the record store of the DNS server. */
module WorkloadDns {
  import opened Common
  import opened GoStrings
  import opened DeployModel
  import opened DnsNames

  datatype Record = Record(zone: string, name: string, ttl: nat, kind: nat, data: string)

  const TYPE_A := 1
  const RECORD_TTL := 60

  /** The DNS server library: record normalization, which may refuse, and the key a record is stored under. */
  type KeyOf = Record -> string
  datatype Library = Library(normalize: Record -> Option<Record>, key: KeyOf)

  datatype Service = Service(enabled: bool, hasStore: bool, zone: string, lib: Library)

  /** Stored records by library key, and published records by workload. */
  datatype Index = Index(store: map<string, Record>, published: map<string, Record>)

  /** A call, with the outcomes of the store calls it may make. A store call that fails changes nothing. */
  datatype Call =
    | Upsert(ns: string, workload: string, ip: string, saved: bool, deleted: bool)
    | Remove(ns: string, workload: string, deleted: bool)

  predicate Active(c: Service) { c.enabled && c.hasStore }

  function WorkloadRecord(zone: string, ns: string, workload: string, ip: string): Record {
    Record(zone, ServiceName(ns, workload, zone), RECORD_TTL, TYPE_A, TrimSpace(ip))
  }

  /** The record that an upsert saves, if it gets that far. */
  function Saved(c: Service, u: Call): Option<Record>
    requires u.Upsert?
  {
    if Active(c) && TrimSpace(u.ip) != "" && u.saved
    then c.lib.normalize(WorkloadRecord(c.zone, u.ns, u.workload, u.ip))
    else None
  }

  /** Saves a record for workload `k`, and deletes the record it replaces if that has another key. */
  function Publish(key: KeyOf, s: Index, k: string, r: Record, deleted: bool): Index {
    var store := s.store[key(r) := r];
    var stale := k in s.published && key(s.published[k]) != key(r) && deleted;
    Index(if stale then store - {key(s.published[k])} else store, s.published[k := r])
  }

  function Withdraw(key: KeyOf, s: Index, k: string): Index
    requires k in s.published
  {
    Index(s.store - {key(s.published[k])}, s.published - {k})
  }

  function Step(c: Service, s: Index, call: Call): Index {
    var k := RecordKey(call.ns, call.workload);
    match call
    case Upsert(_, _, _, _, deleted) =>
      var saved := Saved(c, call);
      if saved.None? then s else Publish(c.lib.key, s, k, saved.value, deleted)
    case Remove(_, _, deleted) =>
      if !Active(c) || k !in s.published || !deleted then s else Withdraw(c.lib.key, s, k)
  }

  function Run(c: Service, s: Index, calls: seq<Call>): Index {
    if calls == [] then s else Step(c, Run(c, s, calls[..|calls| - 1]), calls[|calls| - 1])
  }

  class Dns {
    const service: Service
    var store: map<string, Record>
    var published: map<string, Record>

    constructor (service: Service, store: map<string, Record>)
      ensures this.service == service && this.store == store && published == map[]
    {
      this.service, this.store, published := service, store, map[];
    }

    method UpsertWorkloadA(ns: string, workload: string, ip: string, saved: bool, deleted: bool) returns (ok: bool)
      modifies this
      ensures Index(store, published) ==
        Step(service, old(Index(store, published)), Upsert(ns, workload, ip, saved, deleted))
      ensures ok <==> !Active(service) || Saved(service, Upsert(ns, workload, ip, saved, deleted)).Some?
    {
      if !service.enabled || !service.hasStore { return true; }
      if TrimSpace(ip) == "" { return false; }
      var norm := service.lib.normalize(WorkloadRecord(service.zone, ns, workload, ip));
      if norm.None? { return false; }
      var k := RecordKey(ns, workload);
      if !saved { return false; }
      store := store[service.lib.key(norm.value) := norm.value];
      if k in published && service.lib.key(published[k]) != service.lib.key(norm.value) {
        if deleted { store := store - {service.lib.key(published[k])}; }
      }
      published := published[k := norm.value];
      ok := true;
    }

    method RemoveWorkloadA(ns: string, workload: string, deleted: bool) returns (ok: bool)
      modifies this
      ensures Index(store, published) == Step(service, old(Index(store, published)), Remove(ns, workload, deleted))
      ensures ok <==> !Active(service) || RecordKey(ns, workload) !in old(published) || deleted
    {
      if !service.enabled || !service.hasStore { return true; }
      var k := RecordKey(ns, workload);
      if k !in published { return true; }
      if !deleted { return false; }
      store := store - {service.lib.key(published[k])};
      published := published - {k};
      ok := true;
    }
  }

  // ---- index and store, for records with distinct keys ----

  ghost predicate OneKeyEach(key: KeyOf, published: map<string, Record>) {
    forall j, k | j in published && k in published && key(published[j]) == key(published[k]) :: j == k
  }

  /** Every published record is in the store under its own key. */
  ghost predicate Tied(key: KeyOf, s: Index) {
    forall k | k in s.published :: key(s.published[k]) in s.store && s.store[key(s.published[k])] == s.published[k]
  }

  ghost predicate PublishedUnder(key: KeyOf, s: Index, x: string) {
    exists k | k in s.published :: key(s.published[k]) == x
  }

  /** The store holds what it started with and, beside it, exactly the published records. */
  ghost predicate Exact(key: KeyOf, base: map<string, Record>, s: Index) {
    && (forall x | x in base :: x in s.store && s.store[x] == base[x])
    && (forall x :: x in s.store <==> x in base || PublishedUnder(key, s, x))
  }

  lemma PublishKeepsTied(key: KeyOf, s: Index, k: string, r: Record, deleted: bool)
    requires Tied(key, s) && OneKeyEach(key, s.published) && OneKeyEach(key, s.published[k := r])
    ensures Tied(key, Publish(key, s, k, r, deleted))
  {
    var p := s.published[k := r];
    forall j | j in p && j != k ensures key(p[j]) != key(r) { assert p[k] == r; }
  }

  lemma WithdrawKeepsTied(key: KeyOf, s: Index, k: string)
    requires Tied(key, s) && OneKeyEach(key, s.published) && k in s.published
    ensures Tied(key, Withdraw(key, s, k))
  {}

  lemma PublishKeepsExact(key: KeyOf, base: map<string, Record>, s: Index, k: string, r: Record)
    requires Exact(key, base, s) && OneKeyEach(key, s.published) && OneKeyEach(key, s.published[k := r])
    requires key(r) !in base && (k in s.published ==> key(s.published[k]) !in base)
    ensures Exact(key, base, Publish(key, s, k, r, true))
  {
    var t := Publish(key, s, k, r, true);
    assert t.published[k] == r;
    forall x | x in t.store && x !in base ensures PublishedUnder(key, t, x) {
      if x != key(r) {
        assert PublishedUnder(key, s, x);
        var j :| j in s.published && key(s.published[j]) == x;
        assert j in t.published && t.published[j] == s.published[j];
      }
    }
    forall x | PublishedUnder(key, t, x) ensures x in t.store {
      if x != key(r) {
        var j :| j in t.published && key(t.published[j]) == x;
        assert j in s.published && key(s.published[j]) == x;
        assert PublishedUnder(key, s, x);
      }
    }
  }

  lemma WithdrawKeepsExact(key: KeyOf, base: map<string, Record>, s: Index, k: string)
    requires Exact(key, base, s) && OneKeyEach(key, s.published) && k in s.published && key(s.published[k]) !in base
    ensures Exact(key, base, Withdraw(key, s, k))
  {
    var t := Withdraw(key, s, k);
    forall x | x in t.store && x !in base ensures PublishedUnder(key, t, x) {
      assert PublishedUnder(key, s, x);
      var j :| j in s.published && key(s.published[j]) == x;
      assert j in t.published && t.published[j] == s.published[j];
    }
    forall x | PublishedUnder(key, t, x) ensures x in t.store {
      var j :| j in t.published && key(t.published[j]) == x;
      assert j in s.published && key(s.published[j]) == x;
      assert PublishedUnder(key, s, x);
    }
  }

  // ---- names and the records published for them ----

  /** A namespace and a workload name, as a caller gives them. */
  type Name = (string, string)

  function IndexKey(x: Name): string { RecordKey(x.0, x.1) }

  function NameOf(x: Name, zone: string): string { ServiceName(x.0, x.1, zone) }

  predicate SameLabels(x: Name, y: Name) {
    NamespaceLabel(x.0) == NamespaceLabel(y.0) && WorkloadLabel(x.1) == WorkloadLabel(y.1)
  }

  /** The calls are about these names only. */
  ghost predicate Over(calls: seq<Call>, names: set<Name>) {
    forall i | 0 <= i < |calls| :: (calls[i].ns, calls[i].workload) in names
  }

  predicate Accepts(c: Service, x: Name, ip: string) {
    Active(c) && TrimSpace(ip) != "" && c.lib.normalize(WorkloadRecord(c.zone, x.0, x.1, ip)).Some?
  }

  function RecordOf(c: Service, x: Name, ip: string): Record
    requires Accepts(c, x, ip)
  {
    c.lib.normalize(WorkloadRecord(c.zone, x.0, x.1, ip)).value
  }

  /** The record was published for some of these names, under this index key. */
  ghost predicate Genuine(c: Service, names: set<Name>, k: string, r: Record) {
    exists x: Name, ip: string :: Accepts(c, x, ip) && x in names && IndexKey(x) == k && RecordOf(c, x, ip) == r
  }

  ghost predicate AllGenuine(c: Service, names: set<Name>, published: map<string, Record>) {
    forall k | k in published :: Genuine(c, names, k, published[k])
  }

  lemma SavedIsGenuine(c: Service, names: set<Name>, call: Call)
    requires call.Upsert? && (call.ns, call.workload) in names && Saved(c, call).Some?
    ensures Genuine(c, names, RecordKey(call.ns, call.workload), Saved(c, call).value)
  {
    assert Accepts(c, (call.ns, call.workload), call.ip);
  }

  lemma StepKeepsGenuine(c: Service, names: set<Name>, s: Index, call: Call)
    requires AllGenuine(c, names, s.published) && (call.ns, call.workload) in names
    ensures AllGenuine(c, names, Step(c, s, call).published)
  {
    if call.Upsert? && Saved(c, call).Some? { SavedIsGenuine(c, names, call); }
  }

  lemma {:induction false} RunsAreGenuine(c: Service, base: map<string, Record>, names: set<Name>, calls: seq<Call>)
    requires Over(calls, names)
    ensures AllGenuine(c, names, Run(c, Index(base, map[]), calls).published)
  {
    if calls != [] {
      var n := |calls| - 1;
      RunsAreGenuine(c, base, names, calls[..n]);
      StepKeepsGenuine(c, names, Run(c, Index(base, map[]), calls[..n]), calls[n]);
    }
  }

  // ---- when the store follows the index ----

  /** Two names have different index keys, and records that the library stores under one key. */
  predicate Collide(c: Service, x: Name, ip: string, y: Name, ip': string) {
    && Accepts(c, x, ip) && Accepts(c, y, ip') && IndexKey(x) != IndexKey(y)
    && c.lib.key(RecordOf(c, x, ip)) == c.lib.key(RecordOf(c, y, ip'))
  }

  ghost predicate Clash(c: Service, names: set<Name>) {
    exists x: Name, ip: string, y: Name, ip': string :: Collide(c, x, ip, y, ip') && x in names && y in names
  }

  lemma GenuineKeysDiffer(c: Service, names: set<Name>, k: string, r: Record, k': string, r': Record)
    requires !Clash(c, names) && Genuine(c, names, k, r) && Genuine(c, names, k', r')
    requires c.lib.key(r) == c.lib.key(r')
    ensures k == k'
  {
    var x, ip :| Accepts(c, x, ip) && x in names && IndexKey(x) == k && RecordOf(c, x, ip) == r;
    var y, ip' :| Accepts(c, y, ip') && y in names && IndexKey(y) == k' && RecordOf(c, y, ip') == r';
    assert !Collide(c, x, ip, y, ip');
  }

  lemma GenuineOneKeyEach(c: Service, names: set<Name>, published: map<string, Record>)
    requires !Clash(c, names) && AllGenuine(c, names, published)
    ensures OneKeyEach(c.lib.key, published)
  {
    forall j, k | j in published && k in published && c.lib.key(published[j]) == c.lib.key(published[k]) ensures j == k {
      GenuineKeysDiffer(c, names, j, published[j], k, published[k]);
    }
  }

  lemma StepKeepsTied(c: Service, names: set<Name>, s: Index, call: Call)
    requires !Clash(c, names) && AllGenuine(c, names, s.published) && (call.ns, call.workload) in names
    requires Tied(c.lib.key, s)
    ensures Tied(c.lib.key, Step(c, s, call))
  {
    var k := RecordKey(call.ns, call.workload);
    StepKeepsGenuine(c, names, s, call);
    GenuineOneKeyEach(c, names, s.published);
    GenuineOneKeyEach(c, names, Step(c, s, call).published);
    if call.Upsert? {
      if Saved(c, call).Some? { PublishKeepsTied(c.lib.key, s, k, Saved(c, call).value, call.deleted); }
    } else if k in s.published {
      WithdrawKeepsTied(c.lib.key, s, k);
    }
  }

  /** Over names that do not clash, whatever store calls fail, the published records are in the store. */
  lemma {:induction false} RunsAreTied(c: Service, base: map<string, Record>, names: set<Name>, calls: seq<Call>)
    requires !Clash(c, names) && Over(calls, names)
    ensures Tied(c.lib.key, Run(c, Index(base, map[]), calls))
  {
    if calls != [] {
      var n := |calls| - 1;
      RunsAreTied(c, base, names, calls[..n]);
      RunsAreGenuine(c, base, names, calls[..n]);
      StepKeepsTied(c, names, Run(c, Index(base, map[]), calls[..n]), calls[n]);
    }
  }

  /** No workload record takes the key of a record that was in the store before. */
  ghost predicate Apart(c: Service, names: set<Name>, base: map<string, Record>) {
    forall x: Name, ip: string | Accepts(c, x, ip) && x in names :: c.lib.key(RecordOf(c, x, ip)) !in base
  }

  lemma GenuineIsApart(c: Service, names: set<Name>, base: map<string, Record>, k: string, r: Record)
    requires Apart(c, names, base) && Genuine(c, names, k, r)
    ensures c.lib.key(r) !in base
  {
    var x, ip :| Accepts(c, x, ip) && x in names && IndexKey(x) == k && RecordOf(c, x, ip) == r;
  }

  lemma StepKeepsExact(c: Service, names: set<Name>, base: map<string, Record>, s: Index, call: Call)
    requires !Clash(c, names) && Apart(c, names, base) && AllGenuine(c, names, s.published) && Exact(c.lib.key, base, s)
    requires (call.ns, call.workload) in names && (call.Upsert? ==> call.deleted)
    ensures Exact(c.lib.key, base, Step(c, s, call))
  {
    var k := RecordKey(call.ns, call.workload);
    StepKeepsGenuine(c, names, s, call);
    GenuineOneKeyEach(c, names, s.published);
    GenuineOneKeyEach(c, names, Step(c, s, call).published);
    if k in s.published { GenuineIsApart(c, names, base, k, s.published[k]); }
    if call.Upsert? {
      if Saved(c, call).Some? {
        SavedIsGenuine(c, names, call);
        GenuineIsApart(c, names, base, k, Saved(c, call).value);
        PublishKeepsExact(c.lib.key, base, s, k, Saved(c, call).value);
      }
    } else if k in s.published {
      WithdrawKeepsExact(c.lib.key, base, s, k);
    }
  }

  /** No upsert leaves a stale record behind. */
  predicate Tidy(calls: seq<Call>) {
    forall i | 0 <= i < |calls| :: calls[i].Upsert? ==> calls[i].deleted
  }

  /** Over names that do not clash, on a run in which no stale record is left behind, the workload records in the
      store are exactly the published ones. */
  lemma {:induction false} RunsAreExact(c: Service, base: map<string, Record>, names: set<Name>, calls: seq<Call>)
    requires !Clash(c, names) && Apart(c, names, base) && Over(calls, names) && Tidy(calls)
    ensures Exact(c.lib.key, base, Run(c, Index(base, map[]), calls))
  {
    if calls != [] {
      var n := |calls| - 1;
      RunsAreExact(c, base, names, calls[..n]);
      RunsAreGenuine(c, base, names, calls[..n]);
      StepKeepsExact(c, names, base, Run(c, Index(base, map[]), calls[..n]), calls[n]);
    }
  }

  // ---- and when it does not ----

  lemma RunOfThree(c: Service, base: map<string, Record>, x: Call, y: Call, z: Call)
    ensures Run(c, Index(base, map[]), [x, y, z]) == Step(c, Step(c, Step(c, Index(base, map[]), x), y), z)
  {
    var s := Index(base, map[]);
    assert [x, y, z][..2] == [x, y] && [x, y][..1] == [x] && [x][..0] == [];
    assert Run(c, s, [x]) == Step(c, s, x);
    assert Run(c, s, [x, y]) == Step(c, Run(c, s, [x]), y);
  }

  /** Publishing two records with one store key and withdrawing the first leaves the second published and not
      stored. */
  lemma LosesARecord(key: KeyOf, base: map<string, Record>, k: string, r: Record, k': string, r': Record)
    requires k != k' && key(r) == key(r')
    ensures var s := Publish(key, Publish(key, Index(base, map[]), k, r, true), k', r', true);
      && k in s.published && !Tied(key, Withdraw(key, s, k)) && !Exact(key, base, Withdraw(key, s, k))
  {
    var s := Publish(key, Publish(key, Index(base, map[]), k, r, true), k', r', true);
    var t := Withdraw(key, s, k);
    assert t.published[k'] == r' && key(r') !in t.store;
    assert PublishedUnder(key, t, key(r'));
  }

  function LosingCalls(x: Name, ip: string, y: Name, ip': string): seq<Call> {
    [Upsert(x.0, x.1, ip, true, true), Upsert(y.0, y.1, ip', true, true), Remove(x.0, x.1, true)]
  }

  lemma LosingRun(c: Service, base: map<string, Record>, x: Name, ip: string, y: Name, ip': string)
    requires Collide(c, x, ip, y, ip')
    ensures var s := Run(c, Index(base, map[]), LosingCalls(x, ip, y, ip'));
      !Tied(c.lib.key, s) && !Exact(c.lib.key, base, s)
  {
    RunOfThree(c, base, Upsert(x.0, x.1, ip, true, true), Upsert(y.0, y.1, ip', true, true), Remove(x.0, x.1, true));
    LosesARecord(c.lib.key, base, IndexKey(x), RecordOf(c, x, ip), IndexKey(y), RecordOf(c, y, ip'));
  }

  lemma LosingCallsAreOver(x: Name, ip: string, y: Name, ip': string, names: set<Name>)
    requires x in names && y in names
    ensures Over(LosingCalls(x, ip, y, ip'), names) && Tidy(LosingCalls(x, ip, y, ip'))
  {}

  ghost predicate AlwaysTied(c: Service, base: map<string, Record>, names: set<Name>) {
    forall calls | Over(calls, names) :: Tied(c.lib.key, Run(c, Index(base, map[]), calls))
  }

  ghost predicate AlwaysExact(c: Service, base: map<string, Record>, names: set<Name>) {
    forall calls | Over(calls, names) && Tidy(calls) :: Exact(c.lib.key, base, Run(c, Index(base, map[]), calls))
  }

  lemma ClashBreaksBoth(c: Service, base: map<string, Record>, names: set<Name>)
    requires Clash(c, names)
    ensures !AlwaysTied(c, base, names) && !AlwaysExact(c, base, names)
  {
    var x, ip, y, ip' :| Collide(c, x, ip, y, ip') && x in names && y in names;
    var calls := LosingCalls(x, ip, y, ip');
    LosingRun(c, base, x, ip, y, ip');
    LosingCallsAreOver(x, ip, y, ip', names);
    BrokenBy(c, base, names, calls);
  }

  lemma BrokenBy(c: Service, base: map<string, Record>, names: set<Name>, calls: seq<Call>)
    requires Over(calls, names) && Tidy(calls)
    requires var s := Run(c, Index(base, map[]), calls); !Tied(c.lib.key, s) && !Exact(c.lib.key, base, s)
    ensures !AlwaysTied(c, base, names) && !AlwaysExact(c, base, names)
  {}

  /** The exact condition: every run over the names keeps the published records in the store if and only if no two
      of the names clash. */
  lemma TiedExactly(c: Service, base: map<string, Record>, names: set<Name>)
    ensures AlwaysTied(c, base, names) <==> !Clash(c, names)
  {
    if Clash(c, names) {
      ClashBreaksBoth(c, base, names);
    } else {
      forall calls | Over(calls, names) ensures Tied(c.lib.key, Run(c, Index(base, map[]), calls)) {
        RunsAreTied(c, base, names, calls);
      }
    }
  }

  /** Likewise the store is exact after every tidy run if and only if no two of the names clash. */
  lemma ExactExactly(c: Service, base: map<string, Record>, names: set<Name>)
    requires Apart(c, names, base)
    ensures AlwaysExact(c, base, names) <==> !Clash(c, names)
  {
    if Clash(c, names) {
      ClashBreaksBoth(c, base, names);
    } else {
      forall calls | Over(calls, names) && Tidy(calls)
        ensures Exact(c.lib.key, base, Run(c, Index(base, map[]), calls))
      {
        RunsAreExact(c, base, names, calls);
      }
    }
  }

  // ---- which names clash ----

  /** What is assumed of the library: records with different canonical names are stored under different keys. */
  ghost predicate Separates(c: Service) {
    forall a: Record, b: Record ::
      && a.zone == c.zone == b.zone && Canonical(a.name) == a.name && Canonical(b.name) == b.name
      && c.lib.normalize(a).Some? && c.lib.normalize(b).Some?
      && c.lib.key(c.lib.normalize(a).value) == c.lib.key(c.lib.normalize(b).value)
      ==> a.name == b.name
  }

  ghost predicate CanonicalNames(names: set<Name>, zone: string) {
    forall x | x in names :: Canonical(NameOf(x, zone)) == NameOf(x, zone)
  }

  /** Two of the names have one service name and different index keys. */
  ghost predicate SharedName(c: Service, names: set<Name>) {
    exists x: Name, ip: string, y: Name ::
      Accepts(c, x, ip) && x in names && y in names && IndexKey(x) != IndexKey(y) && NameOf(x, c.zone) == NameOf(y, c.zone)
  }

  lemma SameKeySameName(c: Service, x: Name, ip: string, y: Name, ip': string)
    requires Separates(c) && Accepts(c, x, ip) && Accepts(c, y, ip')
    requires Canonical(NameOf(x, c.zone)) == NameOf(x, c.zone) && Canonical(NameOf(y, c.zone)) == NameOf(y, c.zone)
    requires c.lib.key(RecordOf(c, x, ip)) == c.lib.key(RecordOf(c, y, ip'))
    ensures NameOf(x, c.zone) == NameOf(y, c.zone)
  {
    var a, b := WorkloadRecord(c.zone, x.0, x.1, ip), WorkloadRecord(c.zone, y.0, y.1, ip');
    assert c.lib.key(c.lib.normalize(a).value) == c.lib.key(c.lib.normalize(b).value);
  }

  /** Canonical names clash exactly when two of them, with different index keys, share a service name. */
  lemma ClashExactly(c: Service, names: set<Name>)
    requires Separates(c) && CanonicalNames(names, c.zone)
    ensures Clash(c, names) <==> SharedName(c, names)
  {
    if Clash(c, names) {
      var x, ip, y, ip' :| Collide(c, x, ip, y, ip') && x in names && y in names;
      SameKeySameName(c, x, ip, y, ip');
    }
    if SharedName(c, names) {
      var x, ip, y :|
        Accepts(c, x, ip) && x in names && y in names && IndexKey(x) != IndexKey(y) && NameOf(x, c.zone) == NameOf(y, c.zone);
      SameNameCollides(c, x, ip, y);
    }
  }

  lemma SameNameCollides(c: Service, x: Name, ip: string, y: Name)
    requires Accepts(c, x, ip) && IndexKey(x) != IndexKey(y) && NameOf(x, c.zone) == NameOf(y, c.zone)
    ensures Collide(c, x, ip, y, ip)
  {
    assert WorkloadRecord(c.zone, x.0, x.1, ip) == WorkloadRecord(c.zone, y.0, y.1, ip);
  }

  predicate DotFree(x: Name) { IsLabel(NamespaceLabel(x.0)) && IsLabel(WorkloadLabel(x.1)) }

  lemma DotFreeIsCanonical(x: Name, zone: string)
    requires Settled(zone) && DotFree(x)
    ensures Canonical(NameOf(x, zone)) == NameOf(x, zone)
  {
    var w := WorkloadLabel(x.1);
    assert w[0] in w;
    LabelsAreSettled(x.0, x.1);
    ServiceNameIsPrinted(x.0, x.1, zone);
    PrintedIsCanonical(NamespaceLabel(x.0), w, zone);
  }

  lemma DotFreeNamesDiffer(x: Name, y: Name, zone: string)
    requires Settled(zone) && DotFree(x) && DotFree(y) && NameOf(x, zone) == NameOf(y, zone)
    ensures SameLabels(x, y)
  {
    RoundTrip(x.0, x.1, zone);
    RoundTrip(y.0, y.1, zone);
  }

  /** Dot-free names never clash. */
  lemma DotFreeNeverClash(c: Service, names: set<Name>)
    requires Settled(c.zone) && Separates(c) && forall x | x in names :: DotFree(x)
    ensures !Clash(c, names)
  {
    forall x | x in names ensures Canonical(NameOf(x, c.zone)) == NameOf(x, c.zone) { DotFreeIsCanonical(x, c.zone); }
    ClashExactly(c, names);
    forall x, y | x in names && y in names && NameOf(x, c.zone) == NameOf(y, c.zone) ensures IndexKey(x) == IndexKey(y) {
      DotFreeNamesDiffer(x, y, c.zone);
    }
  }

  lemma DottedLabels(a: string, b: string)
    requires IsPlain(a) && IsPlain(b)
    requires ToLower(a) == a && TrimSpace(a) == a && ToLower(b) == b && TrimSpace(b) == b
    ensures WorkloadLabel(a + "." + b) == a + "." + b && NamespaceLabel(a + "." + b) == a + "." + b
    ensures WorkloadLabel(a) == a && NamespaceLabel(b) == b
  {
    var s := a + "." + b;
    LowerAppend(a, ".");
    LowerAppend(a + ".", b);
    assert s[0] == a[0] && s[|s| - 1] == b[|b| - 1];
  }

  lemma DottedNamesShare(a: string, b: string, n: string, zone: string)
    requires Settled(zone) && forall s | s in {a, b, n} :: IsPlain(s) && ToLower(s) == s && TrimSpace(s) == s
    ensures var x, y := (n, a + "." + b), (b + "." + n, a);
      NameOf(x, zone) == NameOf(y, zone) && IndexKey(x) != IndexKey(y)
  {
    DottedLabels(a, b);
    DottedLabels(b, n);
    ServiceNameIsPrinted(n, a + "." + b, zone);
    ServiceNameIsPrinted(b + "." + n, a, zone);
    DottedNamesAlias(a, b, n, zone);
  }

  /** Names that differ only in where the dot falls clash, whatever the library does. */
  lemma DottedNamesClash(c: Service, names: set<Name>, a: string, b: string, n: string, ip: string)
    requires Settled(c.zone) && forall s | s in {a, b, n} :: IsPlain(s) && ToLower(s) == s && TrimSpace(s) == s
    requires (n, a + "." + b) in names && (b + "." + n, a) in names && Accepts(c, (n, a + "." + b), ip)
    ensures Clash(c, names)
  {
    DottedNamesShare(a, b, n, c.zone);
    SameNameCollides(c, (n, a + "." + b), ip, (b + "." + n, a));
  }

  // ---- the record served is the latest one ----

  /** What a call leaves as the record of its own workload. */
  function Replaced(c: Service, call: Call, before: Option<Record>): Option<Record> {
    match call
    case Upsert(_, _, _, _, _) => if Saved(c, call).Some? then Saved(c, call) else before
    case Remove(_, _, deleted) => if Active(c) && deleted then None else before
  }

  function Served(c: Service, call: Call, q: Name, before: Option<Record>): Option<Record> {
    if SameLabels((call.ns, call.workload), q) then Replaced(c, call, before) else before
  }

  /** The record of the last upsert for a workload that took effect, unless it was withdrawn since. */
  function Latest(c: Service, calls: seq<Call>, q: Name): Option<Record> {
    if calls == [] then None
    else Served(c, calls[|calls| - 1], q, Latest(c, calls[..|calls| - 1], q))
  }

  function Find(published: map<string, Record>, q: Name): Option<Record> {
    if IndexKey(q) in published then Some(published[IndexKey(q)]) else None
  }

  /** Two of the names have one index key and different labels. */
  ghost predicate SharedKey(c: Service, names: set<Name>) {
    exists x: Name, ip: string, y: Name ::
      Accepts(c, x, ip) && x in names && y in names && IndexKey(x) == IndexKey(y) && !SameLabels(x, y)
  }

  /** A published key belongs to one workload among names that share no key. */
  lemma UnsharedKey(c: Service, names: set<Name>, k: string, r: Record, x: Name, y: Name)
    requires !SharedKey(c, names) && Genuine(c, names, k, r)
    requires x in names && y in names && IndexKey(x) == IndexKey(y) == k
    ensures SameLabels(x, y)
  {
    var z, ip :| Accepts(c, z, ip) && z in names && IndexKey(z) == k && RecordOf(c, z, ip) == r;
    assert SameLabels(z, x) && SameLabels(z, y);
  }

  lemma StepFinds(c: Service, names: set<Name>, s: Index, call: Call, q: Name)
    requires !SharedKey(c, names) && AllGenuine(c, names, s.published)
    requires (call.ns, call.workload) in names && q in names
    ensures Find(Step(c, s, call).published, q) == Served(c, call, q, Find(s.published, q))
  {
    var x := (call.ns, call.workload);
    var k := IndexKey(x);
    if k == IndexKey(q) {
      if call.Upsert? && Saved(c, call).Some? {
        SavedIsGenuine(c, names, call);
        UnsharedKey(c, names, k, Saved(c, call).value, x, q);
      } else if k in s.published {
        UnsharedKey(c, names, k, s.published[k], x, q);
      }
    }
    StepFindsBy(c, s, call, q);
  }

  lemma StepFindsBy(c: Service, s: Index, call: Call, q: Name)
    requires var x := (call.ns, call.workload);
      IndexKey(x) == IndexKey(q) && ((call.Upsert? && Saved(c, call).Some?) || IndexKey(x) in s.published) ==> SameLabels(x, q)
    ensures Find(Step(c, s, call).published, q) == Served(c, call, q, Find(s.published, q))
  {}

  /** Over names that share no index key, the index answers every name with its latest record. */
  lemma {:induction false} IndexServesLatest(
    c: Service, base: map<string, Record>, names: set<Name>, calls: seq<Call>, q: Name)
    requires !SharedKey(c, names) && Over(calls, names) && q in names
    ensures Find(Run(c, Index(base, map[]), calls).published, q) == Latest(c, calls, q)
  {
    if calls != [] {
      var n := |calls| - 1;
      IndexServesLatest(c, base, names, calls[..n], q);
      RunsAreGenuine(c, base, names, calls[..n]);
      StepFinds(c, names, Run(c, Index(base, map[]), calls[..n]), calls[n], q);
    }
  }

  function UpsertOnly(x: Name, ip: string): (calls: seq<Call>)
    ensures forall names: set<Name> | x in names :: Over(calls, names)
  {
    [Upsert(x.0, x.1, ip, true, true)]
  }

  lemma SharedKeyMisleads(c: Service, base: map<string, Record>, x: Name, ip: string, y: Name)
    requires Accepts(c, x, ip) && IndexKey(x) == IndexKey(y) && !SameLabels(x, y)
    ensures var calls := UpsertOnly(x, ip);
      Find(Run(c, Index(base, map[]), calls).published, y) != Latest(c, calls, y)
  {
    var call := Upsert(x.0, x.1, ip, true, true);
    assert [call][..0] == [];
    assert Run(c, Index(base, map[]), [call]) == Step(c, Index(base, map[]), call);
    assert Latest(c, [call], y) == Served(c, call, y, Latest(c, [], y)) == None;
  }

  ghost predicate AlwaysLatest(c: Service, base: map<string, Record>, names: set<Name>) {
    forall calls, q | Over(calls, names) && q in names ::
      Find(Run(c, Index(base, map[]), calls).published, q) == Latest(c, calls, q)
  }

  lemma MisledBy(c: Service, base: map<string, Record>, names: set<Name>, calls: seq<Call>, q: Name)
    requires Over(calls, names) && q in names
    requires Find(Run(c, Index(base, map[]), calls).published, q) != Latest(c, calls, q)
    ensures !AlwaysLatest(c, base, names)
  {}

  lemma SharedKeyBreaks(c: Service, base: map<string, Record>, names: set<Name>)
    requires SharedKey(c, names)
    ensures !AlwaysLatest(c, base, names)
  {
    var x, ip, y :| Accepts(c, x, ip) && x in names && y in names && IndexKey(x) == IndexKey(y) && !SameLabels(x, y);
    SharedKeyMisleads(c, base, x, ip, y);
    MisledBy(c, base, names, UpsertOnly(x, ip), y);
  }

  /** The exact condition: every name is answered with its latest record on every run if and only if no two of the
      names share an index key. */
  lemma LatestExactly(c: Service, base: map<string, Record>, names: set<Name>)
    ensures AlwaysLatest(c, base, names) <==> !SharedKey(c, names)
  {
    if SharedKey(c, names) {
      SharedKeyBreaks(c, base, names);
    } else {
      forall calls, q | Over(calls, names) && q in names
        ensures Find(Run(c, Index(base, map[]), calls).published, q) == Latest(c, calls, q)
      {
        IndexServesLatest(c, base, names, calls, q);
      }
    }
  }

  /** Names whose namespaces have no slash share no index key, dotted or not. */
  lemma SlashFreeNeverShares(c: Service, names: set<Name>)
    requires forall x | x in names :: '/' !in NamespaceLabel(x.0)
    ensures !SharedKey(c, names)
  {
    forall x, y | x in names && y in names && IndexKey(x) == IndexKey(y) ensures SameLabels(x, y) {
      FirstSeparator(NamespaceLabel(x.0), WorkloadLabel(x.1), NamespaceLabel(y.0), WorkloadLabel(y.1), '/');
    }
  }

  /** The latest record of a name is in the store, where the server's own resolver reads it. */
  lemma LatestIsStored(c: Service, base: map<string, Record>, names: set<Name>, calls: seq<Call>, q: Name)
    requires !Clash(c, names) && !SharedKey(c, names) && Over(calls, names) && q in names
    ensures var s, latest := Run(c, Index(base, map[]), calls), Latest(c, calls, q);
      latest.Some? ==> c.lib.key(latest.value) in s.store && s.store[c.lib.key(latest.value)] == latest.value
  {
    RunsAreTied(c, base, names, calls);
    IndexServesLatest(c, base, names, calls, q);
  }

  /** An upsert of this workload that the service, the library and the store all accept. It publishes an address
      record of the service name, with a time to live of 60 seconds and the trimmed address as its data. */
  predicate Publishes(c: Service, call: Call, q: Name) {
    && call.Upsert? && c.enabled && c.hasStore && TrimSpace(call.ip) != "" && call.saved
    && NamespaceLabel(call.ns) == NamespaceLabel(q.0) && WorkloadLabel(call.workload) == WorkloadLabel(q.1)
    && c.lib.normalize(Record(c.zone, ServiceName(call.ns, call.workload, c.zone), 60, 1, TrimSpace(call.ip))).Some?
  }

  predicate Withdraws(c: Service, call: Call, q: Name) {
    && call.Remove? && c.enabled && c.hasStore && call.deleted
    && NamespaceLabel(call.ns) == NamespaceLabel(q.0) && WorkloadLabel(call.workload) == WorkloadLabel(q.1)
  }

  /** The address of the last call that published the workload, unless one withdrew it since. */
  function LastAddress(c: Service, calls: seq<Call>, q: Name): Option<string> {
    if calls == [] then None
    else
      var call := calls[|calls| - 1];
      if Publishes(c, call, q) then Some(TrimSpace(call.ip))
      else if Withdraws(c, call, q) then None
      else LastAddress(c, calls[..|calls| - 1], q)
  }

  /** What is assumed of the library here: normalizing keeps a record's data. */
  ghost predicate KeepsData(c: Service) {
    forall a: Record | c.lib.normalize(a).Some? :: c.lib.normalize(a).value.data == a.data
  }

  /** The latest record of a workload holds the address of the last call that published it. */
  lemma {:induction false} LatestHoldsLastAddress(c: Service, calls: seq<Call>, q: Name)
    requires KeepsData(c)
    ensures var latest, address := Latest(c, calls, q), LastAddress(c, calls, q);
      (latest.Some? <==> address.Some?) && (latest.Some? ==> latest.value.data == address.value)
  {
    if calls != [] {
      var n := |calls| - 1;
      LatestHoldsLastAddress(c, calls[..n], q);
      ServedAddress(c, calls[n], q, Latest(c, calls[..n], q));
    }
  }

  lemma ServedAddress(c: Service, call: Call, q: Name, before: Option<Record>)
    requires KeepsData(c)
    ensures var served := Served(c, call, q, before);
      if Publishes(c, call, q) then served.Some? && served.value.data == TrimSpace(call.ip)
      else if Withdraws(c, call, q) then served == None
      else served == before
  {
    if call.Upsert? && Saved(c, call).Some? {
      var a := WorkloadRecord(c.zone, call.ns, call.workload, call.ip);
      assert c.lib.normalize(a).value.data == a.data;
    }
  }

  // ---- answering a query ----

  predicate AssignedTo(a: Assignment, ns: string, workload: string) {
    && NamespaceOrDefault(a.meta.namespace) == ns
    && TrimSpace(a.workload) == workload
    && TrimSpace(a.status) == STATUS_RUNNING
  }

  type IsIPv4 = string -> bool

  function Answers(isIPv4: IsIPv4, ns: string, workload: string): Assignment -> bool {
    (a: Assignment) => AssignedTo(a, ns, workload) && isIPv4(TrimSpace(a.address))
  }

  /** The address of the first running assignment of the workload that has an IPv4 address. */
  function AssignmentIPv4(isIPv4: IsIPv4, assignments: seq<Assignment>, q: Name): Option<string> {
    var w := TrimSpace(q.1);
    var i := FirstIndex(assignments, Answers(isIPv4, NamespaceOrDefault(q.0), w));
    if w == "" || i == |assignments| then None else Some(TrimSpace(assignments[i].address))
  }

  /** All assignments that answer for the name have one address. */
  ghost predicate OneAddress(isIPv4: IsIPv4, assignments: seq<Assignment>, q: Name) {
    var p := Answers(isIPv4, NamespaceOrDefault(q.0), TrimSpace(q.1));
    forall a, b | a in assignments && b in assignments && p(a) && p(b) :: TrimSpace(a.address) == TrimSpace(b.address)
  }

  /** The fallback gives the same answer in whatever order the assignments are listed. */
  ghost predicate OrderFree(isIPv4: IsIPv4, assignments: seq<Assignment>, q: Name) {
    forall xs | multiset(xs) == multiset(assignments) ::
      AssignmentIPv4(isIPv4, xs, q) == AssignmentIPv4(isIPv4, assignments, q)
  }

  function MoveFirst<T>(xs: seq<T>, i: nat): seq<T>
    requires i < |xs|
  {
    [xs[i]] + xs[..i] + xs[i + 1..]
  }

  lemma MovedFirstAnswers(isIPv4: IsIPv4, xs: seq<Assignment>, q: Name, i: nat)
    requires i < |xs| && TrimSpace(q.1) != "" && Answers(isIPv4, NamespaceOrDefault(q.0), TrimSpace(q.1))(xs[i])
    ensures multiset(MoveFirst(xs, i)) == multiset(xs)
    ensures AssignmentIPv4(isIPv4, MoveFirst(xs, i), q) == Some(TrimSpace(xs[i].address))
  {
    assert xs == xs[..i] + [xs[i]] + xs[i + 1..];
    var p := Answers(isIPv4, NamespaceOrDefault(q.0), TrimSpace(q.1));
    assert MoveFirst(xs, i)[0] == xs[i] && p(MoveFirst(xs, i)[0]);
    assert FirstIndex(MoveFirst(xs, i), p) == 0;
  }

  lemma SameAnswer(isIPv4: IsIPv4, xs: seq<Assignment>, ys: seq<Assignment>, q: Name)
    requires multiset(xs) == multiset(ys) && OneAddress(isIPv4, xs, q)
    ensures AssignmentIPv4(isIPv4, xs, q) == AssignmentIPv4(isIPv4, ys, q)
  {
    var p := Answers(isIPv4, NamespaceOrDefault(q.0), TrimSpace(q.1));
    var i, j := FirstIndex(xs, p), FirstIndex(ys, p);
    assert forall a :: a in xs <==> a in multiset(xs);
    assert forall a :: a in ys <==> a in multiset(ys);
    if i < |xs| { assert xs[i] in ys; }
    if j < |ys| { assert ys[j] in xs; }
  }

  /** The fallback does not look at the app, so two apps of one namespace can answer for one name. Its answer is
      independent of the listing order if and only if all running assignments that answer have one address, or the
      name is blank. */
  lemma FallbackOrderExactly(isIPv4: IsIPv4, assignments: seq<Assignment>, q: Name)
    ensures OrderFree(isIPv4, assignments, q) <==> TrimSpace(q.1) == "" || OneAddress(isIPv4, assignments, q)
  {
    var p := Answers(isIPv4, NamespaceOrDefault(q.0), TrimSpace(q.1));
    if OneAddress(isIPv4, assignments, q) {
      forall xs | multiset(xs) == multiset(assignments)
        ensures AssignmentIPv4(isIPv4, xs, q) == AssignmentIPv4(isIPv4, assignments, q)
      {
        SameAnswer(isIPv4, assignments, xs, q);
      }
    } else if TrimSpace(q.1) != "" {
      var a, b :| a in assignments && b in assignments && p(a) && p(b) && TrimSpace(a.address) != TrimSpace(b.address);
      var i :| 0 <= i < |assignments| && assignments[i] == a;
      var j :| 0 <= j < |assignments| && assignments[j] == b;
      MovedFirstAnswers(isIPv4, assignments, q, i);
      MovedFirstAnswers(isIPv4, assignments, q, j);
    }
  }

  /** The data of a record, if it is an IPv4 address. */
  function RecordIPv4(isIPv4: IsIPv4, r: Option<Record>): Option<string> {
    if r.Some? && isIPv4(TrimSpace(r.value.data)) then Some(TrimSpace(r.value.data)) else None
  }

  /** A `Range` that stops at the first row accepted. */
  method RangeUntil<T>(items: seq<T>, p: T -> bool) returns (i: nat)
    ensures i == FirstIndex(items, p)
  {
    i := 0;
    while i < |items| && !p(items[i])
      invariant i <= |items| && forall j | 0 <= j < i :: !p(items[j])
    {
      i := i + 1;
    }
  }

  /** lookupAssignmentWorkloadIPv4. */
  method LookupAssignment(isIPv4: IsIPv4, assignments: seq<Assignment>, q: Name) returns (r: Option<string>)
    requires !isIPv4("")
    ensures r == AssignmentIPv4(isIPv4, assignments, q)
    ensures r.Some? ==> isIPv4(r.value)
    ensures r.None? <==>
      TrimSpace(q.1) == "" || forall a | a in assignments :: !Answers(isIPv4, NamespaceOrDefault(q.0), TrimSpace(q.1))(a)
  {
    var w := TrimSpace(q.1);
    if w == "" { return None; }
    var i := RangeUntil(assignments, Answers(isIPv4, NamespaceOrDefault(q.0), w));
    r := if i < |assignments| then Some(TrimSpace(assignments[i].address)) else None;
  }

  /** LookupWorkloadIPv4: the published record first, the assignments otherwise. */
  method LookupWorkloadIPv4(
    dns: Dns, isIPv4: IsIPv4, assignments: Option<seq<Assignment>>, q: Name) returns (r: Option<string>)
    requires !isIPv4("")
    ensures r == LookupIPv4(isIPv4, Find(dns.published, q), assignments, q)
    ensures r.Some? ==> isIPv4(r.value)
  {
    var k := IndexKey(q);
    if k in dns.published {
      var ip := TrimSpace(dns.published[k].data);
      if isIPv4(ip) { return Some(ip); }
    }
    if assignments.None? { return None; }
    r := LookupAssignment(isIPv4, assignments.value, q);
  }

  function LookupIPv4(isIPv4: IsIPv4, record: Option<Record>, assignments: Option<seq<Assignment>>, q: Name)
    : Option<string>
  {
    if RecordIPv4(isIPv4, record).Some? then RecordIPv4(isIPv4, record)
    else if assignments.None? then None
    else AssignmentIPv4(isIPv4, assignments.value, q)
  }

  /** How the resolver over the record store answered, and what was asked for. */
  datatype Rcode = NoError | NameError | Refused | OtherCode
  datatype Qtype = TypeA | TypeAny | OtherType

  /** The dynamic answer is tried only when the resolver did not know the name or refused it. */
  predicate Gate(rcode: Rcode, qtype: Qtype) { !rcode.NoError? && !rcode.OtherCode? && !qtype.OtherType? }

  /** writeDynamicWorkloadA: the address answered, or None when the handler goes on without an answer. */
  method DynamicAnswer(
    dns: Dns, zone: string, isIPv4: IsIPv4, assignments: Option<seq<Assignment>>, rcode: Rcode, qtype: Qtype, name: string)
    returns (r: Option<string>)
    requires !isIPv4("")
    ensures r == Answered(dns.published, zone, isIPv4, assignments, rcode, qtype, name)
  {
    if rcode != NameError && rcode != Refused { return None; }
    if qtype != TypeA && qtype != TypeAny { return None; }
    var parsed := Parse(name, zone);
    if parsed.None? { return None; }
    r := LookupWorkloadIPv4(dns, isIPv4, assignments, parsed.value);
  }

  function Answered(
    published: map<string, Record>, zone: string, isIPv4: IsIPv4, assignments: Option<seq<Assignment>>,
    rcode: Rcode, qtype: Qtype, name: string): Option<string>
  {
    var parsed := Parse(name, zone);
    if !Gate(rcode, qtype) || parsed.None? then None
    else LookupIPv4(isIPv4, Find(published, parsed.value), assignments, parsed.value)
  }

  function Labels(q: Name): Name { (NamespaceLabel(q.0), WorkloadLabel(q.1)) }

  lemma FindByLabels(published: map<string, Record>, q: Name)
    ensures Find(published, Labels(q)) == Find(published, q)
  {
    LabelsAreFixed(q.0, q.1);
  }

  /** End to end, for every run, every outcome of the resolver and every dot-free name. The dynamic answer to a query
      for the service name is tried exactly when the resolver answered name-error or refused and an address is asked
      for. It is then the latest record published for the name, if that holds an IPv4 address, and otherwise the
      address of the first running assignment of the lowered labels that has one. */
  lemma QueryServesLatest(
    c: Service, base: map<string, Record>, names: set<Name>, calls: seq<Call>, q: Name,
    isIPv4: IsIPv4, assignments: Option<seq<Assignment>>, rcode: Rcode, qtype: Qtype)
    requires Settled(c.zone) && !SharedKey(c, names) && Over(calls, names) && q in names && DotFree(q)
    ensures var published, latest := Run(c, Index(base, map[]), calls).published, Latest(c, calls, q);
      var r := Answered(published, c.zone, isIPv4, assignments, rcode, qtype, NameOf(q, c.zone));
      if rcode !in {NameError, Refused} || qtype !in {TypeA, TypeAny} then r == None
      else if latest.Some? && isIPv4(TrimSpace(latest.value.data)) then r == Some(TrimSpace(latest.value.data))
      else if assignments.None? then r == None
      else AssignmentAnswer(isIPv4, assignments.value, NamespaceLabel(q.0), WorkloadLabel(q.1), r)
  {
    QueryLooksUp(c, base, names, calls, q, isIPv4, assignments, rcode, qtype);
    LabelsAreTrimmed(q);
    if assignments.Some? { AssignmentAnswered(isIPv4, assignments.value, Labels(q)); }
  }

  lemma LabelsAreTrimmed(q: Name)
    ensures TrimSpace(Labels(q).1) == Labels(q).1 && NamespaceOrDefault(Labels(q).0) == Labels(q).0
  {
    LabelsAreSettled(q.0, q.1);
  }

  lemma QueryLooksUp(
    c: Service, base: map<string, Record>, names: set<Name>, calls: seq<Call>, q: Name,
    isIPv4: IsIPv4, assignments: Option<seq<Assignment>>, rcode: Rcode, qtype: Qtype)
    requires Settled(c.zone) && !SharedKey(c, names) && Over(calls, names) && q in names && DotFree(q)
    ensures var published := Run(c, Index(base, map[]), calls).published;
      Answered(published, c.zone, isIPv4, assignments, rcode, qtype, NameOf(q, c.zone)) ==
        if Gate(rcode, qtype) then LookupIPv4(isIPv4, Latest(c, calls, q), assignments, Labels(q)) else None
  {
    RoundTrip(q.0, q.1, c.zone);
    FindByLabels(Run(c, Index(base, map[]), calls).published, q);
    IndexServesLatest(c, base, names, calls, q);
  }

  /** The first of the assignments with this namespace and workload, running, and with an IPv4 address. */
  ghost predicate AssignmentAnswer(
    isIPv4: IsIPv4, assignments: seq<Assignment>, ns: string, workload: string, r: Option<string>)
  {
    if r.None? then forall a | a in assignments :: !Serves(isIPv4, a, ns, workload)
    else exists i | 0 <= i < |assignments| ::
      && Serves(isIPv4, assignments[i], ns, workload) && r.value == TrimSpace(assignments[i].address)
      && forall j | 0 <= j < i :: !Serves(isIPv4, assignments[j], ns, workload)
  }

  predicate Serves(isIPv4: IsIPv4, a: Assignment, ns: string, workload: string) {
    && (if TrimSpace(a.meta.namespace) == "" then ns == "default" else ns == TrimSpace(a.meta.namespace))
    && TrimSpace(a.workload) == workload && TrimSpace(a.status) == "running" && isIPv4(TrimSpace(a.address))
  }

  lemma ServesExactly(isIPv4: IsIPv4, a: Assignment, ns: string, workload: string)
    ensures Answers(isIPv4, ns, workload)(a) <==> Serves(isIPv4, a, ns, workload)
  {
    assert Answers(isIPv4, ns, workload)(a) <==> AssignedTo(a, ns, workload) && isIPv4(TrimSpace(a.address));
    assert NamespaceOrDefault(a.meta.namespace) ==
      if TrimSpace(a.meta.namespace) == "" then "default" else TrimSpace(a.meta.namespace);
  }

  lemma AssignmentAnswered(isIPv4: IsIPv4, assignments: seq<Assignment>, q: Name)
    requires TrimSpace(q.1) == q.1 != "" && NamespaceOrDefault(q.0) == q.0
    ensures AssignmentAnswer(isIPv4, assignments, q.0, q.1, AssignmentIPv4(isIPv4, assignments, q))
  {
    var p := Answers(isIPv4, q.0, q.1);
    forall a | a in assignments ensures p(a) <==> Serves(isIPv4, a, q.0, q.1) { ServesExactly(isIPv4, a, q.0, q.1); }
    var i := FirstIndex(assignments, p);
    if i < |assignments| { assert p(assignments[i]) && forall j | 0 <= j < i :: !p(assignments[j]); }
  }

  /** A query reaches a running assignment through its service name exactly when its names are in lower case:
      the query is lowered, and assignments are compared as they are written. */
  lemma AssignmentAnswersItsName(a: Assignment, zone: string)
    requires Settled(zone) && DotFree((a.meta.namespace, a.workload)) && TrimSpace(a.status) == STATUS_RUNNING
    ensures var q := Parse(ServiceName(a.meta.namespace, a.workload, zone), zone);
      && q.Some?
      && (AssignedTo(a, NamespaceOrDefault(q.value.0), TrimSpace(q.value.1)) <==>
          ToLower(NamespaceOrDefault(a.meta.namespace)) == NamespaceOrDefault(a.meta.namespace)
          && ToLower(TrimSpace(a.workload)) == TrimSpace(a.workload))
  {
    RoundTrip(a.meta.namespace, a.workload, zone);
    LabelsAreSettled(a.meta.namespace, a.workload);
  }
}
