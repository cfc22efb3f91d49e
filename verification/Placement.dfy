/** Placement v1alpha1: the feasible node with the least CPU usage, ties broken by free memory, then by the
    manifest's preference order, then by node id. */
module Placement {
  import opened Common
  import opened GoStrings
  import opened DeployModel
  import opened Ordering

  type Catalog = map<string, NodeSnapshot>

  datatype Error = NoValidNames | NoCatalogMatch | NoFeasibleNode

  datatype Choice = Placed(node: string) | Failed(error: Error)

  // ---- feasibility ----

  /** Millicores left on a node, from its core count and its usage percentage. */
  function EstimatedCPUMillisRemaining(s: NodeSnapshot): int {
    if s.logicalCores <= 0 then 0
    else
      var total := s.logicalCores * 1000;
      if s.cpuUsagePercent <= 0.0 then total
      else
        var p := if s.cpuUsagePercent > 100.0 then 100.0 else s.cpuUsagePercent;
        (total as real * ((100.0 - p) / 100.0)).Floor
  }

  predicate Feasible(request: Resources, s: NodeSnapshot) {
    && !(request.memoryBytes > 0 && s.memoryAvail < request.memoryBytes)
    && (request.cpuMillis <= 0 || EstimatedCPUMillisRemaining(s) >= request.cpuMillis)
  }

  function Request(w: Workload): Resources {
    if w.resources.None? then Resources(0, 0) else w.resources.value
  }

  /** The idle share of a node's cores, as a real number of millicores. */
  function IdleMillis(s: NodeSnapshot): real {
    var used := if s.cpuUsagePercent <= 0.0 then 0.0 else if s.cpuUsagePercent > 100.0 then 100.0 else s.cpuUsagePercent;
    if s.logicalCores <= 0 then 0.0 else (s.logicalCores * 1000) as real * ((100.0 - used) / 100.0)
  }

  /** The share of a node's cores that is in use, between nothing and everything. */
  function Used(s: NodeSnapshot): real {
    if s.cpuUsagePercent <= 0.0 then 0.0 else if s.cpuUsagePercent > 100.0 then 100.0 else s.cpuUsagePercent
  }

  lemma RemainingIsIdle(s: NodeSnapshot)
    ensures EstimatedCPUMillisRemaining(s) == IdleMillis(s).Floor
  {
    var total := s.logicalCores * 1000;
    assert total as real * ((100.0 - 0.0) / 100.0) == total as real;
  }

  /** A node is feasible exactly when it has the requested memory free and the requested millicores idle. A request of
      nothing, or of less, is always met. */
  lemma FeasibleExactly(request: Resources, s: NodeSnapshot)
    ensures Feasible(request, s) <==>
      && request.memoryBytes <= s.memoryAvail
      && (request.cpuMillis > 0 ==>
            s.logicalCores > 0 && request.cpuMillis as real * 100.0 <= (s.logicalCores * 1000) as real * (100.0 - Used(s)))
  {
    RemainingIsIdle(s);
    if request.cpuMillis > 0 { FloorCovers(request.cpuMillis, IdleMillis(s)); }
    if s.logicalCores > 0 { IdleHundredfold(s); }
  }

  lemma FloorCovers(n: int, x: real)
    ensures x.Floor >= n <==> n as real <= x
  {
  }

  lemma IdleHundredfold(s: NodeSnapshot)
    requires s.logicalCores > 0
    ensures IdleMillis(s) * 100.0 == (s.logicalCores * 1000) as real * (100.0 - Used(s))
  {
    var t, u := (s.logicalCores * 1000) as real, 100.0 - Used(s);
    assert (t * (u / 100.0)) * 100.0 == t * u;
  }

  // ---- preferences ----

  /** Trimmed, non-blank names, first occurrences in list order. */
  function Preferred(raw: seq<string>): (r: seq<string>) {
    if raw == [] then []
    else
      var earlier, n := Preferred(raw[..|raw| - 1]), TrimSpace(raw[|raw| - 1]);
      if n != "" && n !in earlier then earlier + [n] else earlier
  }

  ghost predicate Named(raw: seq<string>, n: string) {
    exists k | 0 <= k < |raw| :: TrimSpace(raw[k]) == n
  }

  lemma NamedNext(raw: seq<string>, n: string)
    requires raw != []
    ensures Named(raw, n) <==> Named(raw[..|raw| - 1], n) || TrimSpace(raw[|raw| - 1]) == n
  {
    var m := |raw| - 1;
    assert forall k | 0 <= k < m :: raw[..m][k] == raw[k];
  }

  /** The preference list holds exactly the non-blank names that some raw entry trims to. */
  lemma {:induction false} PreferredHolds(raw: seq<string>, n: string)
    ensures n in Preferred(raw) <==> n != "" && Named(raw, n)
  {
    if raw != [] {
      PreferredHolds(raw[..|raw| - 1], n);
      NamedNext(raw, n);
    }
  }

  /** No name is in the preference list twice. */
  lemma {:induction false} PreferredDistinct(raw: seq<string>)
    ensures Distinct(Preferred(raw))
  {
    if raw != [] { PreferredDistinct(raw[..|raw| - 1]); }
  }

  /** The preference list is in order of first occurrence: whatever a prefix of the raw entries names comes before
      every name that only later entries bring. */
  lemma {:induction false} PreferredInOrder(raw: seq<string>, k: nat)
    requires k <= |raw|
    ensures Preferred(raw[..k]) <= Preferred(raw)
  {
    if k == |raw| {
      assert raw[..k] == raw;
    } else {
      assert raw[..|raw| - 1][..k] == raw[..k];
      PreferredInOrder(raw[..|raw| - 1], k);
    }
  }

  method PreferredNames(w: Workload) returns (want: seq<string>, restricted: bool)
    ensures restricted == (w.preferredNodes != [])
    ensures want == Preferred(w.preferredNodes)
  {
    want, restricted := [], |w.preferredNodes| > 0;
    for i := 0 to |w.preferredNodes|
      invariant want == Preferred(w.preferredNodes[..i])
    {
      assert w.preferredNodes[..i + 1][..i] == w.preferredNodes[..i];
      var n := TrimSpace(w.preferredNodes[i]);
      if n != "" && n !in want { want := want + [n]; }
    }
    assert w.preferredNodes[..|w.preferredNodes|] == w.preferredNodes;
  }

  /** The first index of `id` in the preference list; missing ids sort last. */
  function Rank(want: seq<string>, id: string): (r: nat)
    ensures if id in want then r < |want| && want[r] == id else r == |want| + 1
    ensures forall k | 0 <= k < r && k < |want| :: want[k] != id
  {
    if id !in want then |want| + 1
    else if want[0] == id then 0
    else
      assert want == [want[0]] + want[1..];
      var r := 1 + Rank(want[1..], id);
      assert forall k | 0 < k < |want| :: want[k] == want[1..][k - 1];
      r
  }

  method PreferredRank(want: seq<string>, id: string) returns (found: nat)
    ensures found == Rank(want, id)
  {
    found := |want| + 1;
    var index := 0;
    while index < |want|
      invariant 0 <= index <= |want| && found == |want| + 1
      invariant forall k | 0 <= k < index :: want[k] != id
    {
      if want[index] == id { return index; }
      index := index + 1;
    }
  }

  // ---- the order ----

  /** Which nodes may be chosen at all. Catalog reads trim the id. */
  predicate Candidate(catalog: Catalog, w: Workload, id: string) {
    && id in catalog
    && (w.preferredNodes == [] || TrimSpace(id) in Preferred(w.preferredNodes))
    && TrimSpace(id) in catalog && Feasible(Request(w), catalog[TrimSpace(id)])
  }

  datatype Score = Score(cpu: real, memory: nat, rank: nat, id: string)

  function ScoreOf(catalog: Catalog, w: Workload, id: string): Score
    requires TrimSpace(id) in catalog
  {
    var s := catalog[TrimSpace(id)];
    Score(s.cpuUsagePercent, s.memoryAvail,
          if w.preferredNodes == [] then 0 else Rank(Preferred(w.preferredNodes), id), id)
  }

  /** Least CPU usage, then most memory, then smallest rank, then smallest id. */
  predicate Before(a: Score, b: Score) {
    || a.cpu < b.cpu
    || (a.cpu == b.cpu && a.memory > b.memory)
    || (a.cpu == b.cpu && a.memory == b.memory && a.rank < b.rank)
    || (a.cpu == b.cpu && a.memory == b.memory && a.rank == b.rank && Less(a.id, b.id))
  }

  /** A node may be chosen exactly when it is in the catalog, under a trimmed id that the workload names if it names any
      nodes, and has the memory and the millicores free that the workload asks for. */
  lemma CandidateExactly(catalog: Catalog, w: Workload, id: string)
    ensures Candidate(catalog, w, id) <==>
      && id in catalog && TrimSpace(id) in catalog
      && (w.preferredNodes == [] || (TrimSpace(id) != "" && Named(w.preferredNodes, TrimSpace(id))))
      && (w.resources.Some? ==>
            var q, s := w.resources.value, catalog[TrimSpace(id)];
            && q.memoryBytes <= s.memoryAvail
            && (q.cpuMillis > 0 ==>
                  s.logicalCores > 0 && q.cpuMillis as real * 100.0 <= (s.logicalCores * 1000) as real * (100.0 - Used(s))))
  {
    PreferredHolds(w.preferredNodes, TrimSpace(id));
    if TrimSpace(id) in catalog { FeasibleExactly(Request(w), catalog[TrimSpace(id)]); }
  }

  /** The order compares CPU usage, then free memory, then, for a workload that names its nodes, which of the two names
      comes first in its list, and last the ids. */
  lemma BeforeExactly(catalog: Catalog, w: Workload, a: string, b: string)
    requires TrimSpace(a) in catalog && TrimSpace(b) in catalog
    ensures var x, y := catalog[TrimSpace(a)], catalog[TrimSpace(b)];
      var i, j := Rank(Preferred(w.preferredNodes), a), Rank(Preferred(w.preferredNodes), b);
      Before(ScoreOf(catalog, w, a), ScoreOf(catalog, w, b)) <==>
        if x.cpuUsagePercent != y.cpuUsagePercent then x.cpuUsagePercent < y.cpuUsagePercent
        else if x.memoryAvail != y.memoryAvail then x.memoryAvail > y.memoryAvail
        else if w.preferredNodes != [] && i != j then i < j
        else Less(a, b)
  {
  }

  lemma BeforeTransitive(a: Score, b: Score, c: Score)
    requires Before(a, b) && Before(b, c)
    ensures Before(a, c)
  {
    if Less(a.id, b.id) && Less(b.id, c.id) { LessTransitive(a.id, b.id, c.id); }
  }

  /** The order is strict and total on distinct nodes, so its minimum is unique. */
  lemma BeforeIsStrictTotal(a: Score, b: Score)
    ensures !(Before(a, b) && Before(b, a))
    ensures a.id != b.id ==> Before(a, b) || Before(b, a)
  {
    LessTotal(a.id, b.id);
    if Less(a.id, b.id) { LessAsymmetric(a.id, b.id); }
    if a.id == b.id { LessIrreflexive(a.id); }
  }

  /** Two nodes that both come before every other candidate are the same node. */
  lemma PlacementIsUnique(catalog: Catalog, w: Workload, a: string, b: string)
    requires Candidate(catalog, w, a) && Candidate(catalog, w, b)
    requires forall other | Candidate(catalog, w, other) && other != a :: Before(ScoreOf(catalog, w, a), ScoreOf(catalog, w, other))
    requires forall other | Candidate(catalog, w, other) && other != b :: Before(ScoreOf(catalog, w, b), ScoreOf(catalog, w, other))
    ensures a == b
  {
    BeforeIsStrictTotal(ScoreOf(catalog, w, a), ScoreOf(catalog, w, b));
  }

  ghost predicate Best(catalog: Catalog, w: Workload, ids: seq<string>, best: string) {
    && best in ids && Candidate(catalog, w, best)
    && forall other | other in ids && other != best && Candidate(catalog, w, other) ::
         Before(ScoreOf(catalog, w, best), ScoreOf(catalog, w, other))
  }

  // ---- the fold ----

  /** better. */
  predicate Better(a: NodeSnapshot, b: NodeSnapshot) {
    if a.cpuUsagePercent != b.cpuUsagePercent then a.cpuUsagePercent < b.cpuUsagePercent
    else a.memoryAvail > b.memoryAvail
  }

  method ShouldReplaceCandidate(catalog: Catalog, w: Workload, want: seq<string>, cur: string, prev: string) returns (r: bool)
    requires TrimSpace(cur) in catalog && TrimSpace(prev) in catalog && want == Preferred(w.preferredNodes)
    requires Less(prev, cur)
    ensures r == Before(ScoreOf(catalog, w, cur), ScoreOf(catalog, w, prev))
    ensures !r ==> Before(ScoreOf(catalog, w, prev), ScoreOf(catalog, w, cur))
  {
    var a, b := catalog[TrimSpace(cur)], catalog[TrimSpace(prev)];
    LessAsymmetric(prev, cur);
    if Better(a, b) { return true; }
    if w.preferredNodes == [] || a.cpuUsagePercent != b.cpuUsagePercent || a.memoryAvail != b.memoryAvail { return false; }
    var ra := PreferredRank(want, cur);
    var rb := PreferredRank(want, prev);
    r := ra < rb;
  }

  /** bestPlacementCandidate over ids in ascending order. */
  method BestPlacementCandidate(ids: seq<string>, catalog: Catalog, w: Workload, want: seq<string>) returns (best: Option<string>)
    requires Ascending(ids) && want == Preferred(w.preferredNodes)
    requires forall id | id in ids :: id in catalog && (w.preferredNodes == [] || TrimSpace(id) in want)
    ensures best.None? ==> forall id | id in ids :: !Candidate(catalog, w, id)
    ensures best.Some? ==> Best(catalog, w, ids, best.value)
  {
    best := None;
    for i := 0 to |ids|
      invariant best.None? ==> forall id | id in ids[..i] :: !Candidate(catalog, w, id)
      invariant best.Some? ==> Best(catalog, w, ids[..i], best.value)
    {
      var id := ids[i];
      assert ids[..i + 1] == ids[..i] + [id];
      if TrimSpace(id) in catalog && Feasible(Request(w), catalog[TrimSpace(id)]) {
        assert id in ids;
        if best.None? {
          best := Some(id);
        } else {
          var prev := best.value;
          var j :| 0 <= j < i && ids[j] == prev;
          var replace := ShouldReplaceCandidate(catalog, w, want, id, prev);
          if replace {
            Overtake(catalog, w, ids[..i], prev, id);
            best := Some(id);
          } else {
            assert Best(catalog, w, ids[..i + 1], prev);
          }
        }
      }
    }
    assert ids[..|ids|] == ids;
  }

  lemma Overtake(catalog: Catalog, w: Workload, ids: seq<string>, prev: string, id: string)
    requires Best(catalog, w, ids, prev) && Candidate(catalog, w, id)
    requires Before(ScoreOf(catalog, w, id), ScoreOf(catalog, w, prev))
    ensures Best(catalog, w, ids + [id], id)
  {
    forall other | other in ids + [id] && other != id && Candidate(catalog, w, other)
      ensures Before(ScoreOf(catalog, w, id), ScoreOf(catalog, w, other))
    {
      if other != prev {
        BeforeTransitive(ScoreOf(catalog, w, id), ScoreOf(catalog, w, prev), ScoreOf(catalog, w, other));
      }
    }
  }

  function FallbackNodeID(local: string): string {
    var id := TrimSpace(local);
    if id == "" then "local" else id
  }

  /** The allowed ids, still in ascending order. */
  method Filter(ids: seq<string>, want: seq<string>) returns (kept: seq<string>)
    requires Ascending(ids)
    ensures Ascending(kept)
    ensures forall id :: id in kept <==> id in ids && TrimSpace(id) in want
  {
    kept := [];
    for i := 0 to |ids|
      invariant Ascending(kept)
      invariant forall id :: id in kept <==> id in ids[..i] && TrimSpace(id) in want
    {
      assert ids[..i + 1] == ids[..i] + [ids[i]];
      if TrimSpace(ids[i]) in want {
        forall j | 0 <= j < |kept| ensures Less(kept[j], ids[i]) {
          assert kept[j] in kept;
          var k :| 0 <= k < i && ids[k] == kept[j];
        }
        kept := kept + [ids[i]];
      }
    }
    assert ids[..|ids|] == ids;
  }

  /** chooseV1Alpha1. With nodes in the catalog it places the workload exactly when some allowed node can
      take it, on the one that comes before every other such node. */
  method ChooseV1Alpha1(w: Workload, catalog: Catalog, localNode: string) returns (r: Choice)
    ensures catalog == map[] ==> r == Placed(if TrimSpace(localNode) == "" then "local" else TrimSpace(localNode))
    ensures catalog != map[] ==> (r.Placed? <==> exists id :: Candidate(catalog, w, id))
    ensures catalog != map[] && r.Placed? ==>
      && Candidate(catalog, w, r.node)
      && forall other | Candidate(catalog, w, other) && other != r.node ::
           Before(ScoreOf(catalog, w, r.node), ScoreOf(catalog, w, other))
  {
    if |catalog| == 0 { return Placed(FallbackNodeID(localNode)); }
    var ids := SortedKeys(catalog.Keys);
    assert forall id :: id in ids <==> id in Elements(ids);
    var want, restricted := PreferredNames(w);
    if restricted {
      if |want| == 0 { return Failed(NoValidNames); }
      ids := Filter(ids, want);
      if |ids| == 0 {
        assert forall id | Candidate(catalog, w, id) :: id in ids;
        return Failed(NoCatalogMatch);
      }
    }
    var best := BestPlacementCandidate(ids, catalog, w, want);
    assert forall id | Candidate(catalog, w, id) :: id in ids;
    if best.None? { return Failed(NoFeasibleNode); }
    r := Placed(best.value);
  }
}
