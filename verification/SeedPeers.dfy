/**
 The seed peers and the selection of the replicas of a task, as functions of the hosts,
 the ring and the position of the task. The selector's loops are proved against these.
 */
module SeedPeers {
  import opened Results
  import opened HashRing
  import opened Sequences

  datatype Host = Host(name: string, ip: string, port: nat, proxyPort: nat)

  datatype SeedPeer = SeedPeer(host: Host, healthy: bool)

  type Hosts = map<string, SeedPeer>

  datatype Error =
    | HostNotFound(what: string)
    | InvalidArgument(message: string)
    | Internal(message: string)
    | RequestTimeout(message: string)

  /** The seed peers by host name, the last of a name winning. */
  function ByName(seedPeers: seq<SeedPeer>): (hosts: Hosts)
    ensures forall n :: n in hosts <==> exists p :: p in seedPeers && p.host.name == n
    ensures forall n | n in hosts :: hosts[n] in seedPeers && hosts[n].host.name == n
  {
    if seedPeers == [] then map[] else
      var last := seedPeers[|seedPeers| - 1];
      assert seedPeers == seedPeers[..|seedPeers| - 1] + [last];
      assert last in seedPeers;
      ByName(seedPeers[..|seedPeers| - 1])[last.host.name := last]
  }

  /** The hosts and the ring name the same seed peers. */
  ghost predicate InStep(hosts: Hosts, ring: Ring, hashing: Hashing) {
    && Placed(hashing, hosts.Keys)
    && IsRing(ring, hashing, hosts.Keys)
  }

  /** Every host in the order the ring meets it clockwise from the task. */
  function Order(hosts: Hosts, ring: Ring, point: nat): seq<string> {
    Keep(Firsts(Clockwise(ring, point)), hosts.Keys)
  }

  /** The names of the replicas of the task, healthy or not. */
  function Replicas(hosts: Hosts, ring: Ring, point: nat, replicas: nat): (names: seq<string>)
    ensures forall n | n in names :: n in hosts
    ensures Distinct(names)
  {
    KeepElements(Firsts(Clockwise(ring, point)), hosts.Keys);
    FirstsElements(Clockwise(ring, point));
    Take(Order(hosts, ring, point), Min(replicas, |hosts|))
  }

  function HealthyNames(hosts: Hosts): set<string> {
    set n | n in hosts && hosts[n].healthy
  }

  function PeersOf(hosts: Hosts, names: seq<string>): (peers: seq<SeedPeer>)
    requires forall n | n in names :: n in hosts
    ensures |peers| == |names|
  {
    if names == [] then [] else PeersOf(hosts, names[..|names| - 1]) + [hosts[names[|names| - 1]]]
  }

  /** The hosts of the healthy seed peers, in their order. */
  function HealthyHosts(peers: seq<SeedPeer>): seq<Host> {
    if peers == [] then [] else
      var rest := HealthyHosts(peers[..|peers| - 1]);
      var last := peers[|peers| - 1];
      if last.healthy then rest + [last.host] else rest
  }

  /** What a selection answers for the replicas found. */
  function AnswerFor(peers: seq<SeedPeer>): Result<seq<Host>, Error> {
    var selected := HealthyHosts(peers);
    if selected == [] then Err(HostNotFound("selected seed peers")) else Ok(selected)
  }

  /** What a selection answers. */
  function Selection(hosts: Hosts, ring: Ring, point: nat, replicas: nat): Result<seq<Host>, Error> {
    if hosts == map[] then Err(HostNotFound("seed peers"))
    else AnswerFor(PeersOf(hosts, Replicas(hosts, ring, point, replicas)))
  }

  /** The seed peers of the names that are known, in their order. */
  function KnownPeers(hosts: Hosts, names: seq<string>): seq<SeedPeer> {
    if names == [] then [] else
      var rest := KnownPeers(hosts, names[..|names| - 1]);
      var last := names[|names| - 1];
      if last in hosts then rest + [hosts[last]] else rest
  }

  /** Whether the walk for no replicas ends on this answer to a window of nothing. */
  predicate EndsAtZero(hosts: Hosts, ring: Ring, vnodes: seq<VNode>) {
    KnownPeers(hosts, Firsts(vnodes)) == [] || |vnodes| >= |ring|
  }

  /** Whether a selection ends. A replica count of zero is not stopped by reaching it. */
  predicate SelectionEnds(hosts: Hosts, ring: Ring, hashing: Hashing, task: string, replicas: nat) {
    hosts == map[] || replicas > 0 || EndsAtZero(hosts, ring, hashing.walk(ring, hashing.locate(task), 0))
  }

  /** What a selection that ends answers: for no replicas, the peers of the window of nothing. */
  function SelectionOf(hosts: Hosts, ring: Ring, hashing: Hashing, task: string, replicas: nat): Result<seq<Host>, Error> {
    var point := hashing.locate(task);
    if hosts != map[] && replicas == 0 then AnswerFor(KnownPeers(hosts, Firsts(hashing.walk(ring, point, 0))))
    else Selection(hosts, ring, point, replicas)
  }

  /** Whether an update leaves the host names as they are. */
  predicate SameNames(current: Hosts, hosts: Hosts) {
    |current| == |hosts| && forall name | name in hosts.Keys :: name in current
  }

  function NamesOf(hosts: seq<Host>): seq<string> {
    seq(|hosts|, i requires 0 <= i < |hosts| => hosts[i].name)
  }

  // ---------- Laws of the selection ----------

  /** With hosts and ring in step, a task has as many replicas as asked for, up to the hosts. */
  lemma ReplicasAreFound(hosts: Hosts, ring: Ring, hashing: Hashing, point: nat, replicas: nat)
    requires InStep(hosts, ring, hashing)
    ensures Order(hosts, ring, point) == Firsts(Clockwise(ring, point))
    ensures |Order(hosts, ring, point)| == |hosts|
    ensures |Replicas(hosts, ring, point, replicas)| == Min(replicas, |hosts|)
  {
    WalkMeetsEveryHost(ring, hashing, hosts.Keys, point);
    KeepAll(Firsts(Clockwise(ring, point)), hosts.Keys);
  }

  /** Fewer replicas are a prefix of more. */
  lemma ReplicasArePrefixes(hosts: Hosts, ring: Ring, point: nat, fewer: nat, more: nat)
    requires fewer <= more
    ensures Replicas(hosts, ring, point, fewer) <= Replicas(hosts, ring, point, more)
  {
  }

  lemma {:induction false} HealthyHostsNames(hosts: Hosts, names: seq<string>)
    requires forall n | n in names :: n in hosts && hosts[n].host.name == n
    ensures NamesOf(HealthyHosts(PeersOf(hosts, names))) == Keep(names, HealthyNames(hosts))
    ensures forall h | h in HealthyHosts(PeersOf(hosts, names)) :: h.name in names && h == hosts[h.name].host
  {
    if names != [] {
      var init, last := names[..|names| - 1], names[|names| - 1];
      HealthyHostsNames(hosts, init);
      assert PeersOf(hosts, names)[..|names| - 1] == PeersOf(hosts, init);
      assert last in names;
    }
  }

  /** Every host is filed under its own name. */
  ghost predicate Named(hosts: Hosts) {
    forall n | n in hosts :: hosts[n].host.name == n
  }

  /**
   Health never moves a task: while the host names stay, a selection is the currently
   healthy part, in order, of one list fixed by the names.
   */
  lemma SelectionIsStable(hosts: Hosts, before: Hosts, ring: Ring, point: nat, replicas: nat)
    requires Named(hosts) && hosts.Keys == before.Keys
    ensures Replicas(hosts, ring, point, replicas) == Replicas(before, ring, point, replicas)
    ensures
      match Selection(hosts, ring, point, replicas)
      case Ok(selected) => selected != [] && NamesOf(selected) == Keep(Replicas(before, ring, point, replicas), HealthyNames(hosts))
      case Err(_) => Keep(Replicas(before, ring, point, replicas), HealthyNames(hosts)) == []
  {
    assert |hosts| == |hosts.Keys| && |before| == |before.Keys|;
    var names := Replicas(hosts, ring, point, replicas);
    HealthyHostsNames(hosts, names);
  }

  /** Of several seed peers of one name the last is kept. */
  lemma {:induction false} LastOfNameIsKept(seedPeers: seq<SeedPeer>, i: nat)
    requires i < |seedPeers|
    requires forall j | i < j < |seedPeers| :: seedPeers[j].host.name != seedPeers[i].host.name
    ensures seedPeers[i].host.name in ByName(seedPeers) && ByName(seedPeers)[seedPeers[i].host.name] == seedPeers[i]
  {
    if i < |seedPeers| - 1 {
      LastOfNameIsKept(seedPeers[..|seedPeers| - 1], i);
    }
  }

  lemma {:induction false} HealthyHostsMeans(peers: seq<SeedPeer>)
    ensures forall h :: h in HealthyHosts(peers) <==> exists p :: p in peers && p.healthy && p.host == h
  {
    if peers != [] {
      var init, last := peers[..|peers| - 1], peers[|peers| - 1];
      HealthyHostsMeans(init);
      assert peers == init + [last];
      assert forall p :: p in peers <==> p in init || p == last;
    }
  }

  lemma {:induction false} PeersOfMeans(hosts: Hosts, names: seq<string>)
    requires forall n | n in names :: n in hosts
    ensures forall p :: p in PeersOf(hosts, names) <==> exists n :: n in names && hosts[n] == p
  {
    if names != [] {
      var init, last := names[..|names| - 1], names[|names| - 1];
      PeersOfMeans(hosts, init);
      assert names == init + [last];
      assert forall n :: n in names <==> n in init || n == last;
    }
  }

  /** A selection answers the hosts of the healthy replicas, and fails exactly when there is none. */
  lemma SelectionMeans(hosts: Hosts, ring: Ring, point: nat, replicas: nat)
    ensures
      var names := Replicas(hosts, ring, point, replicas);
      match Selection(hosts, ring, point, replicas)
      case Ok(selected) =>
        && selected != []
        && forall h :: h in selected <==> exists n :: n in names && hosts[n].healthy && hosts[n].host == h
      case Err(error) =>
        && (forall n | n in names :: !hosts[n].healthy)
        && error == HostNotFound(if hosts == map[] then "seed peers" else "selected seed peers")
  {
    var names := Replicas(hosts, ring, point, replicas);
    PeersOfMeans(hosts, names);
    HealthyHostsMeans(PeersOf(hosts, names));
    var selected := HealthyHosts(PeersOf(hosts, names));
    forall n | n in names && hosts[n].healthy ensures hosts[n].host in selected {
      assert hosts[n] in PeersOf(hosts, names);
    }
  }

  lemma {:induction false} KnownPeersMeans(hosts: Hosts, names: seq<string>)
    ensures forall p | p in KnownPeers(hosts, names) :: exists n :: n in hosts && hosts[n] == p
  {
    if names != [] {
      KnownPeersMeans(hosts, names[..|names| - 1]);
    }
  }

  lemma SuccessNeedsHealthy(hosts: Hosts, ring: Ring, point: nat, replicas: nat)
    ensures
      Selection(hosts, ring, point, replicas).Ok? ==>
      exists n :: n in Replicas(hosts, ring, point, replicas) && hosts[n].healthy
  {
    SelectionMeans(hosts, ring, point, replicas);
    var selection := Selection(hosts, ring, point, replicas);
    assert selection.Ok? ==> selection.value[0] in selection.value;
  }

  lemma AnswerNeedsHealthy(peers: seq<SeedPeer>)
    ensures AnswerFor(peers).Ok? ==> exists p :: p in peers && p.healthy
  {
    HealthyHostsMeans(peers);
    assert HealthyHosts(peers) != [] ==> HealthyHosts(peers)[0] in HealthyHosts(peers);
  }

  /** Without a healthy seed peer no selection succeeds, whatever the count. */
  lemma NoneHealthyFails(hosts: Hosts, ring: Ring, hashing: Hashing, task: string, replicas: nat)
    requires forall n | n in hosts :: !hosts[n].healthy
    ensures SelectionOf(hosts, ring, hashing, task, replicas).Err?
  {
    var point := hashing.locate(task);
    var names := Firsts(hashing.walk(ring, point, 0));
    SuccessNeedsHealthy(hosts, ring, point, replicas);
    KnownPeersMeans(hosts, names);
    AnswerNeedsHealthy(KnownPeers(hosts, names));
  }
}
