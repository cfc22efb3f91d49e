/** Bootstrap membership: from the configured peers to Dragonboat replica ids and addresses, and back. */
module Bootstrap {
  import opened Common
  import opened GoStrings
  import opened Ordering

  /** The 64-bit FNV hash of a trimmed id: any function. */
  type Hash = string -> Word64

  /** `net.SplitHostPort`: any partial function to a host and a port. */
  type HostPort = string -> Option<(string, string)>

  /** replicaIDForNodeID, which never yields the reserved id zero. */
  function ReplicaID(hash: Hash, id: string): (r: Word64)
    ensures r != 0
  {
    var h := hash(TrimSpace(id));
    if h == 0 then 1 else h
  }

  /** Two ids share a replica id exactly when their trimmed texts have one hash, or hashes zero and one. */
  lemma ReplicaIDsCollideExactly(hash: Hash, a: string, b: string)
    ensures var x, y := hash(TrimSpace(a)), hash(TrimSpace(b));
      ReplicaID(hash, a) == ReplicaID(hash, b) <==> x == y || (x <= 1 && y <= 1)
  {
  }

  /** validateRaftPeerAddress. */
  function ValidAddress(split: HostPort, raw: string): Option<string> {
    var addr := TrimSpace(raw);
    if addr == "" then None
    else
      match split(addr)
      case None => None
      case Some((host, port)) =>
        if TrimSpace(host) == "" || TrimSpace(port) == "" then None else Some(addr)
  }

  // ---- what bootstrapping computes ----

  /** A host and a port, neither of them blank. */
  predicate IsHostPort(split: HostPort, raw: string) {
    && TrimSpace(raw) != "" && split(TrimSpace(raw)).Some?
    && TrimSpace(split(TrimSpace(raw)).value.0) != "" && TrimSpace(split(TrimSpace(raw)).value.1) != ""
  }

  lemma ValidAddressExactly(split: HostPort, raw: string)
    ensures ValidAddress(split, raw) == if IsHostPort(split, raw) then Some(TrimSpace(raw)) else None
  {
  }

  predicate BadPeer(split: HostPort, peers: map<string, string>) {
    exists raw | raw in peers :: TrimSpace(raw) != "" && !IsHostPort(split, peers[raw])
  }

  function PeerIDs(peers: map<string, string>): set<string> {
    set raw | raw in peers && TrimSpace(raw) != "" :: TrimSpace(raw)
  }

  ghost predicate FromPeer(peers: map<string, string>, id: string, addr: string) {
    exists raw | raw in peers :: TrimSpace(raw) == id != "" && addr == TrimSpace(peers[raw])
  }

  /** A table of all peers by trimmed id, with the local node at its own address. */
  ghost predicate PeerTable(peers: map<string, string>, localID: string, localAddr: string, t: map<string, string>) {
    && t.Keys == PeerIDs(peers) + {localID}
    && t[localID] == localAddr
    && forall id | id in t && id != localID :: FromPeer(peers, id, t[id])
  }

  ghost predicate Collides(hash: Hash, ids: set<string>) {
    exists a, b | a in ids && b in ids && a != b :: ReplicaID(hash, a) == ReplicaID(hash, b)
  }

  /** The replica targets of a table: one per id, at its address. */
  ghost predicate TargetsOf(hash: Hash, t: map<string, string>, targets: map<Word64, string>) {
    && (forall id | id in t :: ReplicaID(hash, id) in targets && targets[ReplicaID(hash, id)] == t[id])
    && (forall r | r in targets :: exists id | id in t :: ReplicaID(hash, id) == r)
  }

  // ---- members ----

  function NodeIDOf(
    replicaToNode: map<Word64, string>, addressToNode: map<string, string>, replica: Word64, address: string): string
  {
    if replica in replicaToNode && TrimSpace(replicaToNode[replica]) != "" then replicaToNode[replica]
    else if TrimSpace(address) in addressToNode && TrimSpace(addressToNode[TrimSpace(address)]) != ""
    then addressToNode[TrimSpace(address)]
    else "replica-" + Itoa(replica)
  }

  /** What is remembered of the members. */
  datatype Directory = Directory(nodes: map<Word64, string>, addresses: map<string, string>)

  function Remember(d: Directory, rawID: string, replica: Word64, rawAddress: string): Directory {
    var id, address := TrimSpace(rawID), TrimSpace(rawAddress);
    if id == "" || replica == 0 then d
    else Directory(d.nodes[replica := id], if address == "" then d.addresses else d.addresses[address := id])
  }

  function Forget(d: Directory, replica: Word64): Directory { d.(nodes := d.nodes - {replica}) }

  class Members {
    const hash: Hash
    const split: HostPort
    var replicaToNode: map<Word64, string>
    var addressToNode: map<string, string>

    constructor (hash: Hash, split: HostPort)
      ensures this.hash == hash && this.split == split
      ensures replicaToNode == map[] && addressToNode == map[]
    {
      this.hash, this.split := hash, split;
      replicaToNode, addressToNode := map[], map[];
    }

    method RememberMember(rawID: string, replica: Word64, rawAddress: string)
      modifies this
      ensures Directory(replicaToNode, addressToNode) ==
        Remember(old(Directory(replicaToNode, addressToNode)), rawID, replica, rawAddress)
    {
      var id, address := TrimSpace(rawID), TrimSpace(rawAddress);
      if id == "" || replica == 0 { return; }
      replicaToNode := replicaToNode[replica := id];
      if address != "" { addressToNode := addressToNode[address := id]; }
    }

    method ForgetMember(replica: Word64)
      modifies this`replicaToNode
      ensures Directory(replicaToNode, addressToNode) == Forget(old(Directory(replicaToNode, addressToNode)), replica)
    {
      replicaToNode := replicaToNode - {replica};
    }

    method NodeIDForMember(replica: Word64, address: string) returns (id: string)
      ensures id == NodeIDOf(replicaToNode, addressToNode, replica, address)
    {
      if replica in replicaToNode && TrimSpace(replicaToNode[replica]) != "" { return replicaToNode[replica]; }
      var addr := TrimSpace(address);
      if addr in addressToNode && TrimSpace(addressToNode[addr]) != "" { return addressToNode[addr]; }
      id := "replica-" + Itoa(replica);
    }

    /** bootstrapPeers: reads the configured peers in an unspecified order. */
    method BootstrapPeers(peers: map<string, string>, localID: string, localAddr: string)
      returns (r: Option<map<string, string>>)
      ensures r.None? <==> BadPeer(split, peers)
      ensures r.Some? ==> PeerTable(peers, localID, localAddr, r.value)
    {
      var t: map<string, string> := map[];
      var left := peers.Keys;
      while left != {}
        invariant left <= peers.Keys
        invariant forall raw | raw in peers && raw !in left ::
          TrimSpace(raw) != "" ==> IsHostPort(split, peers[raw]) && TrimSpace(raw) in t
        invariant forall id | id in t :: FromPeer(peers, id, t[id])
        decreases |left|
      {
        var raw :| raw in left;
        left := left - {raw};
        var id := TrimSpace(raw);
        if id != "" {
          var addr := ValidAddress(split, peers[raw]);
          ValidAddressExactly(split, peers[raw]);
          if addr.None? { return None; }
          t := t[id := addr.value];
        }
      }
      t := t[localID := localAddr];
      assert t.Keys == PeerIDs(peers) + {localID};
      r := Some(t);
    }

    /** replicaTargetsFromPeers: ids in ascending order, refusing two ids with one replica id. */
    method ReplicaTargetsFromPeers(t: map<string, string>) returns (r: Option<map<Word64, string>>)
      requires forall id | id in t :: id != "" && TrimSpace(id) == id
      modifies this
      ensures r.None? <==> Collides(hash, t.Keys)
      ensures r.Some? ==> TargetsOf(hash, t, r.value) && Remembered(hash, t, replicaToNode)
      ensures r.Some? ==> Located(t, t.Keys, addressToNode)
      ensures Grown(hash, t, old(replicaToNode), replicaToNode)
    {
      var ids := SortedKeys(t.Keys);
      assert forall id :: id in ids <==> id in Elements(ids);
      AscendingDistinct(ids);
      var targets: map<Word64, string>, seen: map<Word64, string> := map[], map[];
      for i := 0 to |ids|
        invariant Seen(hash, ids[..i], seen)
        invariant Filled(t, seen, targets, replicaToNode)
        invariant Located(t, Elements(ids[..i]), addressToNode)
        invariant Grown(hash, t, old(replicaToNode), replicaToNode)
      {
        var id := ids[i];
        assert ids[..i + 1] == ids[..i] + [id];
        var rid := ReplicaID(hash, id);
        if rid in seen && seen[rid] != id {
          assert seen[rid] in ids[..i] && seen[rid] in ids && id in ids;
          return None;
        }
        assert id in ids && id !in ids[..i];
        SeeNext(hash, ids[..i], seen, id);
        FillNext(t, seen, targets, replicaToNode, rid, id);
        GrowNext(hash, t, old(replicaToNode), replicaToNode, id);
        LocateNext(t, ids[..i], addressToNode, id);
        RememberMember(id, rid, t[id]);
        seen := seen[rid := id];
        targets := targets[rid := t[id]];
      }
      assert ids[..|ids|] == ids;
      AllEntered(hash, t, ids, seen, targets, replicaToNode);
      r := Some(targets);
    }

    /** bootstrapReplicaTargets. It fails exactly when the local id is blank, a peer address is malformed, or
        two members share a replica id. A success given the local node's own replica id returns the targets of
        the peer table as they are, and every member's replica id then leads back to its node id. */
    method BootstrapReplicaTargets(peers: map<string, string>, local: string, localReplica: Word64, localAddr: string)
      returns (r: Option<map<Word64, string>>, ghost t: map<string, string>, ghost base: map<Word64, string>)
      modifies this
      ensures r.None? <==>
        TrimSpace(local) == "" || BadPeer(split, peers) || Collides(hash, PeerIDs(peers) + {TrimSpace(local)})
      ensures r.Some? ==>
        && PeerTable(peers, TrimSpace(local), localAddr, t)
        && TargetsOf(hash, t, base)
        && r.value == if localReplica in base then base else base[localReplica := localAddr]
      ensures r.Some? && localReplica == ReplicaID(hash, local) ==> r.value == base && Remembered(hash, t, replicaToNode)
    {
      var localID := TrimSpace(local);
      t, base := map[], map[];
      if localID == "" { return None, t, base; }
      var table := BootstrapPeers(peers, localID, localAddr);
      if table.None? { return None, t, base; }
      t := table.value;
      TrimSpaceIdempotent(local);
      TableTrimmed(peers, localID, localAddr, t);
      r := ReplicaTargetsFromPeers(table.value);
      if r.None? { return; }
      base := r.value;
      LocalEntry(hash, local, t, base, replicaToNode);
      if localReplica !in r.value {
        r := Some(r.value[localReplica := localAddr]);
      }
      RememberMember(localID, localReplica, localAddr);
    }
  }

  /** The local node is already in the targets and among the remembered nodes under its own replica id. */
  lemma LocalEntry(
    hash: Hash, local: string, t: map<string, string>, targets: map<Word64, string>, nodes: map<Word64, string>)
    requires TrimSpace(local) in t && TargetsOf(hash, t, targets) && Remembered(hash, t, nodes)
    ensures ReplicaID(hash, local) in targets
    ensures nodes[ReplicaID(hash, local) := TrimSpace(local)] == nodes
  {
    TrimSpaceIdempotent(local);
    assert ReplicaID(hash, TrimSpace(local)) == ReplicaID(hash, local);
  }

  lemma TableTrimmed(peers: map<string, string>, localID: string, localAddr: string, t: map<string, string>)
    requires PeerTable(peers, localID, localAddr, t) && localID != "" && TrimSpace(localID) == localID
    ensures forall id | id in t :: id != "" && TrimSpace(id) == id
  {
    forall id | id in t && id != localID ensures id != "" && TrimSpace(id) == id {
      assert FromPeer(peers, id, t[id]);
      var raw :| raw in peers && TrimSpace(raw) == id;
      TrimSpaceIdempotent(raw);
    }
  }

  ghost predicate Remembered(hash: Hash, t: map<string, string>, nodes: map<Word64, string>) {
    forall id | id in t :: ReplicaID(hash, id) in nodes && nodes[ReplicaID(hash, id)] == id
  }

  /** The ids `done` have been seen, each under its own replica id. */
  ghost predicate Seen(hash: Hash, done: seq<string>, seen: map<Word64, string>) {
    && (forall id | id in done :: ReplicaID(hash, id) in seen && seen[ReplicaID(hash, id)] == id)
    && (forall r | r in seen :: seen[r] in done && ReplicaID(hash, seen[r]) == r)
  }

  /** The targets and the remembered nodes follow the ids seen. */
  ghost predicate Filled(
    t: map<string, string>, seen: map<Word64, string>, targets: map<Word64, string>, nodes: map<Word64, string>)
  {
    && seen.Keys == targets.Keys && seen.Keys <= nodes.Keys
    && (forall r | r in seen :: seen[r] in t && targets[r] == t[seen[r]] && nodes[r] == seen[r])
  }

  /** Every replica id that was remembered still is, and whatever is remembered differently now is a member of the
      table under its own replica id. */
  ghost predicate Grown(hash: Hash, t: map<string, string>, before: map<Word64, string>, nodes: map<Word64, string>) {
    && before.Keys <= nodes.Keys
    && forall r | r in nodes ::
         (r in before && nodes[r] == before[r]) || (nodes[r] in t && ReplicaID(hash, nodes[r]) == r)
  }

  lemma GrowNext(hash: Hash, t: map<string, string>, before: map<Word64, string>, nodes: map<Word64, string>, id: string)
    requires Grown(hash, t, before, nodes) && id in t
    ensures Grown(hash, t, before, nodes[ReplicaID(hash, id) := id])
  {}

  ghost predicate LocatedAt(t: map<string, string>, addresses: map<string, string>, address: string) {
    address in addresses && addresses[address] in t && TrimSpace(t[addresses[address]]) == address
  }

  /** The address of each of these ids leads to a member that has that address. */
  ghost predicate Located(t: map<string, string>, ids: set<string>, addresses: map<string, string>) {
    forall id | id in ids && id in t && TrimSpace(t[id]) != "" :: LocatedAt(t, addresses, TrimSpace(t[id]))
  }

  lemma LocateNext(t: map<string, string>, done: seq<string>, addresses: map<string, string>, id: string)
    requires Located(t, Elements(done), addresses) && id in t
    ensures var a := TrimSpace(t[id]);
      Located(t, Elements(done + [id]), if a == "" then addresses else addresses[a := id])
  {
    var a := TrimSpace(t[id]);
    var after := if a == "" then addresses else addresses[a := id];
    assert Elements(done + [id]) == Elements(done) + {id};
    forall d | d in Elements(done) + {id} && d in t && TrimSpace(t[d]) != "" ensures LocatedAt(t, after, TrimSpace(t[d])) {
      if d != id { assert LocatedAt(t, addresses, TrimSpace(t[d])); }
    }
  }

  lemma SeeNext(hash: Hash, done: seq<string>, seen: map<Word64, string>, id: string)
    requires Seen(hash, done, seen) && id !in done
    requires ReplicaID(hash, id) in seen ==> seen[ReplicaID(hash, id)] == id
    ensures Seen(hash, done + [id], seen[ReplicaID(hash, id) := id])
  {
    assert ReplicaID(hash, id) !in seen;
  }

  lemma FillNext(
    t: map<string, string>, seen: map<Word64, string>, targets: map<Word64, string>, nodes: map<Word64, string>,
    r: Word64, id: string)
    requires Filled(t, seen, targets, nodes) && id in t
    ensures Filled(t, seen[r := id], targets[r := t[id]], nodes[r := id])
  {}

  lemma AllEntered(
    hash: Hash, t: map<string, string>, ids: seq<string>,
    seen: map<Word64, string>, targets: map<Word64, string>, nodes: map<Word64, string>)
    requires Seen(hash, ids, seen) && Filled(t, seen, targets, nodes) && Elements(ids) == t.Keys
    ensures TargetsOf(hash, t, targets) && Remembered(hash, t, nodes) && !Collides(hash, t.Keys)
  {
    forall id | id in t ensures ReplicaID(hash, id) in seen && seen[ReplicaID(hash, id)] == id {
      assert id in Elements(ids);
    }
  }

  // ---- agreement ----

  /** No two configured ids are equal after trimming. */
  ghost predicate DistinctPeers(peers: map<string, string>) {
    forall p, q | p in peers && q in peers && TrimSpace(p) == TrimSpace(q) != "" :: p == q
  }

  /** The node is one of the configured peers and advertises its configured address. */
  ghost predicate AdvertisesConfigured(peers: map<string, string>, id: string, addr: string) {
    FromPeer(peers, id, addr)
  }

  lemma FromPeerUnique(peers: map<string, string>, id: string, a: string, b: string)
    requires DistinctPeers(peers) && FromPeer(peers, id, a) && FromPeer(peers, id, b)
    ensures a == b
  {
    var p :| p in peers && TrimSpace(p) == id && a == TrimSpace(peers[p]);
    var q :| q in peers && TrimSpace(q) == id && b == TrimSpace(peers[q]);
    assert p == q;
  }

  lemma ListedTable(peers: map<string, string>, x: string, xAddr: string, t: map<string, string>)
    requires AdvertisesConfigured(peers, x, xAddr)
    ensures PeerIDs(peers) + {x} == PeerIDs(peers)
    ensures PeerTable(peers, x, xAddr, t) ==>
      t.Keys == PeerIDs(peers) && forall id | id in t :: FromPeer(peers, id, t[id])
  {
    var raw :| raw in peers && TrimSpace(raw) == x != "";
    assert x in PeerIDs(peers);
  }

  /** Nodes that share a peer list with distinct ids, each listed in it and advertising its listed address,
      build the same peer table. */
  lemma TablesAgree(
    peers: map<string, string>, x: string, xAddr: string, y: string, yAddr: string,
    s: map<string, string>, t: map<string, string>)
    requires DistinctPeers(peers) && AdvertisesConfigured(peers, x, xAddr) && AdvertisesConfigured(peers, y, yAddr)
    requires PeerTable(peers, x, xAddr, s) && PeerTable(peers, y, yAddr, t)
    ensures s == t
  {
    ListedTable(peers, x, xAddr, s);
    ListedTable(peers, y, yAddr, t);
    forall id | id in s ensures s[id] == t[id] { FromPeerUnique(peers, id, s[id], t[id]); }
  }

  lemma TargetsUnique(hash: Hash, t: map<string, string>, a: map<Word64, string>, b: map<Word64, string>)
    requires TargetsOf(hash, t, a) && TargetsOf(hash, t, b)
    ensures a == b
  {
    forall r | r in a ensures r in b && a[r] == b[r] { var id :| id in t && ReplicaID(hash, id) == r; }
    forall r | r in b ensures r in a { var id :| id in t && ReplicaID(hash, id) == r; }
    assert a.Keys == b.Keys;
  }

  /** Bootstrap agreement, on failure: the condition under which BootstrapReplicaTargets fails at one such node
      is the condition under which it fails at another. */
  lemma FailuresAgree(hash: Hash, peers: map<string, string>, x: string, xAddr: string, y: string, yAddr: string)
    requires AdvertisesConfigured(peers, x, xAddr) && AdvertisesConfigured(peers, y, yAddr)
    ensures Collides(hash, PeerIDs(peers) + {x}) <==> Collides(hash, PeerIDs(peers) + {y})
  {
    ListedTable(peers, x, xAddr, map[]);
    ListedTable(peers, y, yAddr, map[]);
  }

  /** Bootstrap agreement, on success: any two results that BootstrapReplicaTargets allows at such nodes are the
      same replica targets. */
  lemma BootstrapAgreement(
    hash: Hash, peers: map<string, string>, x: string, xAddr: string, y: string, yAddr: string,
    s: map<string, string>, t: map<string, string>, a: map<Word64, string>, b: map<Word64, string>)
    requires DistinctPeers(peers) && AdvertisesConfigured(peers, x, xAddr) && AdvertisesConfigured(peers, y, yAddr)
    requires PeerTable(peers, x, xAddr, s) && TargetsOf(hash, s, a)
    requires PeerTable(peers, y, yAddr, t) && TargetsOf(hash, t, b)
    ensures a == b
  {
    TablesAgree(peers, x, xAddr, y, yAddr, s, t);
    TargetsUnique(hash, s, a, b);
  }

  /** On success the targets are one-to-one with the member ids, and nodeIDForMember inverts the replica id of
      every member, whatever address it is asked with. */
  lemma MembersInvert(
    hash: Hash, t: map<string, string>, nodes: map<Word64, string>, addresses: map<string, string>,
    id: string, other: string, address: string)
    requires Remembered(hash, t, nodes) && id in t && other in t && TrimSpace(id) != ""
    ensures NodeIDOf(nodes, addresses, ReplicaID(hash, id), address) == id
    ensures ReplicaID(hash, id) == ReplicaID(hash, other) ==> id == other
  {
    assert nodes[ReplicaID(hash, id)] == id && nodes[ReplicaID(hash, other)] == other;
  }

  // ---- member lookups over whole runs ----

  datatype Change = Remembers(id: string, replica: Word64, address: string) | Forgets(replica: Word64)

  function After(changes: seq<Change>): Directory {
    if changes == [] then Directory(map[], map[])
    else
      var d := After(changes[..|changes| - 1]);
      match changes[|changes| - 1]
      case Remembers(id, replica, address) => Remember(d, id, replica, address)
      case Forgets(replica) => Forget(d, replica)
  }

  predicate Names(c: Change) { c.Remembers? && TrimSpace(c.id) != "" && c.replica != 0 }

  /** The id a replica was last remembered with, unless it was forgotten since. */
  function LastByReplica(changes: seq<Change>, replica: Word64): Option<string> {
    if changes == [] then None
    else
      var c := changes[|changes| - 1];
      if Names(c) && c.replica == replica then Some(TrimSpace(c.id))
      else if c == Forgets(replica) then None
      else LastByReplica(changes[..|changes| - 1], replica)
  }

  /** The id that was last remembered with an address; forgetting a replica does not undo it. */
  function LastByAddress(changes: seq<Change>, address: string): Option<string> {
    if changes == [] then None
    else
      var c := changes[|changes| - 1];
      if Names(c) && TrimSpace(c.address) == address != "" then Some(TrimSpace(c.id))
      else LastByAddress(changes[..|changes| - 1], address)
  }

  function At<K, V>(m: map<K, V>, k: K): Option<V> { if k in m then Some(m[k]) else None }

  lemma {:induction false} DirectoryIsHistory(changes: seq<Change>, replica: Word64, address: string)
    ensures At(After(changes).nodes, replica) == LastByReplica(changes, replica)
    ensures At(After(changes).addresses, address) == LastByAddress(changes, address)
    ensures LastByReplica(changes, replica).Some? ==> TrimSpace(LastByReplica(changes, replica).value) != ""
    ensures LastByAddress(changes, address).Some? ==> TrimSpace(LastByAddress(changes, address).value) != ""
  {
    if changes != [] {
      var c := changes[|changes| - 1];
      DirectoryIsHistory(changes[..|changes| - 1], replica, address);
      if c.Remembers? { TrimSpaceIdempotent(c.id); }
    }
  }

  /** After any sequence of calls, nodeIDForMember answers with the id the replica was last remembered with unless
      it was forgotten since, else with the id last remembered at the address, even of a forgotten member, else
      with the replica's number. */
  lemma MemberLookupIsHistory(changes: seq<Change>, replica: Word64, address: string)
    ensures var d := After(changes);
      NodeIDOf(d.nodes, d.addresses, replica, address) ==
        match LastByReplica(changes, replica)
        case Some(id) => id
        case None =>
          match LastByAddress(changes, TrimSpace(address))
          case Some(id) => id
          case None => "replica-" + Itoa(replica)
  {
    DirectoryIsHistory(changes, replica, TrimSpace(address));
  }
}
