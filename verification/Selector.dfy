/**
 The seed peer selector: the hosts with their hash ring, replaced together by an update,
 and the ejections of the seed peer proxies.
 */
module Selector {
  import opened Results
  import opened HashRing
  import opened SeedPeers
  import opened Sequences
  import Ejections

  function Pow2(n: nat): nat {
    if n == 0 then 1 else 2 * Pow2(n - 1)
  }

  /** `n` doubled `times` times. */
  function Doubled(n: nat, times: nat): nat {
    if times == 0 then n else 2 * Doubled(n, times - 1)
  }

  lemma {:induction false} DoubledIsPow2(n: nat, times: nat)
    ensures Doubled(n, times) == n * Pow2(times)
  {
    if times > 0 {
      DoubledIsPow2(n, times - 1);
    }
  }

  lemma {:induction false} KnownPeersAreKept(hosts: Hosts, names: seq<string>)
    ensures forall n | n in Keep(names, hosts.Keys) :: n in hosts
    ensures KnownPeers(hosts, names) == PeersOf(hosts, Keep(names, hosts.Keys))
  {
    KeepElements(names, hosts.Keys);
    if names != [] {
      var init, last := names[..|names| - 1], names[|names| - 1];
      KnownPeersAreKept(hosts, init);
      if last in hosts {
        assert (Keep(init, hosts.Keys) + [last])[..|Keep(init, hosts.Keys)|] == Keep(init, hosts.Keys);
      }
    }
  }

  lemma {:induction false} KnownPeersPrefix(hosts: Hosts, p: seq<string>, names: seq<string>)
    requires p <= names
    ensures KnownPeers(hosts, p) <= KnownPeers(hosts, names)
  {
    if |p| == |names| {
      assert p == names;
    } else {
      KnownPeersPrefix(hosts, p, names[..|names| - 1]);
    }
  }

  lemma {:induction false} PeersOfTake(hosts: Hosts, names: seq<string>, n: nat)
    requires forall name | name in names :: name in hosts
    ensures Take(PeersOf(hosts, names), n) == PeersOf(hosts, Take(names, n))
  {
    if names != [] && n < |names| {
      PeersOfTake(hosts, names[..|names| - 1], n);
      assert Take(names[..|names| - 1], n) == Take(names, n);
    } else {
      assert Take(names, n) == names;
    }
  }

  /** One more virtual node adds its name when the name is new, and a peer when it is known. */
  lemma OneMoreNode(hosts: Hosts, vnodes: seq<VNode>, i: nat)
    requires i < |vnodes|
    ensures
      var before, after, name := Firsts(vnodes[..i]), Firsts(vnodes[..i + 1]), vnodes[i].name;
      && after == (if name in before then before else before + [name])
      && KnownPeers(hosts, after) == KnownPeers(hosts, before) + (if name in before || name !in hosts then [] else [hosts[name]])
  {
    assert vnodes[..i + 1][..i] == vnodes[..i];
    var before, name := Firsts(vnodes[..i]), vnodes[i].name;
    assert (before + [name])[..|before|] == before;
  }

  /** What one window yields: nothing stops the collection when nothing is expected. */
  function Collected(hosts: Hosts, vnodes: seq<VNode>, expected: nat): seq<SeedPeer> {
    var known := KnownPeers(hosts, Firsts(vnodes));
    if expected == 0 then known else Take(known, expected)
  }

  lemma CollectedAll(hosts: Hosts, vnodes: seq<VNode>, i: nat, expected: nat)
    requires i <= |vnodes|
    requires
      var found := |KnownPeers(hosts, Firsts(vnodes[..i]))|;
      (i == |vnodes| && (expected > 0 ==> found <= expected)) || (expected > 0 && found == expected)
    ensures KnownPeers(hosts, Firsts(vnodes[..i])) == Collected(hosts, vnodes, expected)
  {
    if i == |vnodes| {
      assert vnodes[..i] == vnodes;
    } else {
      var met := Firsts(vnodes[..i]);
      FirstsPrefix(vnodes[..i], vnodes);
      KnownPeersPrefix(hosts, met, Firsts(vnodes));
      assert KnownPeers(hosts, met) == KnownPeers(hosts, Firsts(vnodes))[..expected];
    }
  }

  /** The distinct known seed peers of one window, until the expected number is reached. */
  method Collect(hosts: Hosts, vnodes: seq<VNode>, expected: nat) returns (peers: seq<SeedPeer>)
    ensures peers == Collected(hosts, vnodes, expected)
  {
    peers := [];
    var seen: set<string> := {};
    ghost var met: seq<string> := [];
    var i := 0;
    while i < |vnodes|
      invariant 0 <= i <= |vnodes|
      invariant met == Firsts(vnodes[..i])
      invariant forall n :: n in seen <==> n in met
      invariant peers == KnownPeers(hosts, met)
      invariant expected > 0 ==> |peers| < expected
    {
      OneMoreNode(hosts, vnodes, i);
      var name := vnodes[i].name;
      met, i := Firsts(vnodes[..i + 1]), i + 1;
      if name in seen {
        continue;
      }
      seen := seen + {name};
      if name !in hosts {
        continue;
      }
      peers := peers + [hosts[name]];
      if |peers| == expected {
        break;
      }
    }
    CollectedAll(hosts, vnodes, i, expected);
  }

  lemma FewerPlaced(hashing: Hashing, names: set<string>, fewer: set<string>)
    requires Placed(hashing, names) && fewer <= names
    ensures Placed(hashing, fewer)
  {
  }

  lemma OneMoreHost(ring: Ring, hashing: Hashing, hostNames: set<string>, names: set<string>, name: string)
    requires Placed(hashing, hostNames) && IsRing(ring, hashing, hostNames - names)
    requires name in names && names <= hostNames
    ensures IsRing(Add(ring, hashing, name), hashing, hostNames - (names - {name}))
  {
    var added := hostNames - names;
    FewerPlaced(hashing, hostNames, added + {name});
    AddKeepsRing(ring, hashing, added, name);
    assert hostNames - (names - {name}) == added + {name};
  }

  /** The ring of the hosts, adding them in whatever order the map iterates. */
  method BuildRing(hashing: Hashing, hostNames: set<string>) returns (ring: Ring)
    requires Placed(hashing, hostNames)
    ensures ring == RingOf(hashing, hostNames)
  {
    ring := [];
    var names := hostNames;
    while names != {}
      invariant names <= hostNames
      invariant IsRing(ring, hashing, hostNames - names)
      decreases |names|
    {
      var name :| name in names;
      OneMoreHost(ring, hashing, hostNames, names, name);
      ring, names := Add(ring, hashing, name), names - {name};
    }
    assert hostNames - names == hostNames;
    RingUnique(ring, RingOf(hashing, hostNames), hashing, hostNames);
  }

  /** A window with enough known seed peers, or as long as the ring, gives those of the whole walk. */
  lemma WindowSuffices(hosts: Hosts, ring: Ring, point: nat, vnodes: seq<VNode>, expected: nat)
    requires vnodes <= Clockwise(ring, point)
    requires |KnownPeers(hosts, Firsts(vnodes))| >= expected || |vnodes| >= |ring|
    ensures Take(KnownPeers(hosts, Firsts(vnodes)), expected) == Take(KnownPeers(hosts, Firsts(Clockwise(ring, point))), expected)
  {
    var walk := Clockwise(ring, point);
    FirstsPrefix(vnodes, walk);
    KnownPeersPrefix(hosts, Firsts(vnodes), Firsts(walk));
    ClockwiseElements(ring, point);
    assert |vnodes| >= |ring| ==> vnodes == walk;
  }

  /** The known seed peers of the whole walk are those of the order of the task. */
  lemma KnownReplicas(hosts: Hosts, ring: Ring, point: nat, replicas: nat)
    ensures
      Take(KnownPeers(hosts, Firsts(Clockwise(ring, point))), Min(replicas, |hosts|)) ==
      PeersOf(hosts, Replicas(hosts, ring, point, replicas))
  {
    KnownPeersAreKept(hosts, Firsts(Clockwise(ring, point)));
    PeersOfTake(hosts, Order(hosts, ring, point), Min(replicas, |hosts|));
  }

  /**
   The first `expected` known seed peers clockwise from the task. The window over the ring
   doubles until it holds enough of them or all of the ring, so it never exceeds twice the
   ring: after `rounds` doublings it is twice `expected` times a power of two.
   */
  method WalkRing(hosts: Hosts, ring: Ring, hashing: Hashing, point: nat, expected: nat)
    returns (peers: seq<SeedPeer>, ghost rounds: nat)
    requires Walks(hashing)
    requires expected > 0 || EndsAtZero(hosts, ring, hashing.walk(ring, point, 0))
    ensures expected > 0 ==> peers == Take(KnownPeers(hosts, Firsts(Clockwise(ring, point))), expected)
    ensures expected == 0 ==> peers == KnownPeers(hosts, Firsts(hashing.walk(ring, point, 0)))
    ensures rounds > 0 ==> expected * Pow2(rounds) < |ring|
  {
    var window := expected * 2;
    rounds := 0;
    while true
      invariant window == 2 * Doubled(expected, rounds)
      invariant expected == 0 ==> rounds == 0
      invariant expected > 0 ==> window > 0
      invariant rounds > 0 ==> window < 2 * |ring|
      decreases 2 * |ring| - window
    {
      var vnodes := hashing.walk(ring, point, window);
      assert Answers(ring, point, window, vnodes);
      peers := Collect(hosts, vnodes, expected);
      if |peers| == expected || |vnodes| >= |ring| {
        if expected > 0 {
          WindowSuffices(hosts, ring, point, vnodes, expected);
        }
        break;
      }
      window := window * 2;
      rounds := rounds + 1;
    }
    DoubledIsPow2(expected, rounds);
  }

  // ---------- Exactly when the walk ends ----------

  /** Whether the loop stops in round `round`, counted from zero. */
  ghost predicate RoundEnds(hosts: Hosts, ring: Ring, hashing: Hashing, point: nat, expected: nat, round: nat) {
    var vnodes := hashing.walk(ring, point, 2 * Doubled(expected, round));
    |Collected(hosts, vnodes, expected)| == expected || |vnodes| >= |ring|
  }

  lemma {:induction false} DoubledGrows(n: nat, times: nat)
    ensures n > 0 ==> Doubled(n, times) > times
    ensures n == 0 ==> Doubled(n, times) == 0
  {
    if times > 0 {
      DoubledGrows(n, times - 1);
    }
  }

  /** A walk for some replicas ends; a walk for none ends in its first round or never. */
  lemma WalkEndsExactly(hosts: Hosts, ring: Ring, hashing: Hashing, point: nat, expected: nat)
    requires Walks(hashing)
    ensures
      (exists round: nat :: RoundEnds(hosts, ring, hashing, point, expected, round))
      <==> expected > 0 || EndsAtZero(hosts, ring, hashing.walk(ring, point, 0))
  {
    if expected > 0 {
      DoubledGrows(expected, |ring|);
      var window := 2 * Doubled(expected, |ring|);
      assert Answers(ring, point, window, hashing.walk(ring, point, window));
      assert RoundEnds(hosts, ring, hashing, point, expected, |ring|);
    } else {
      forall round: nat
        ensures RoundEnds(hosts, ring, hashing, point, 0, round) <==> EndsAtZero(hosts, ring, hashing.walk(ring, point, 0))
      {
        DoubledGrows(0, round);
      }
      assert EndsAtZero(hosts, ring, hashing.walk(ring, point, 0)) ==> RoundEnds(hosts, ring, hashing, point, 0, 0);
    }
  }

  /** So a selection ends exactly without seed peers, or when some round of its walk does. */
  lemma SelectionEndsExactly(hosts: Hosts, ring: Ring, hashing: Hashing, task: string, replicas: nat)
    requires Walks(hashing)
    ensures
      SelectionEnds(hosts, ring, hashing, task, replicas)
      <==> hosts == map[] || exists round: nat ::
             RoundEnds(hosts, ring, hashing, hashing.locate(task), Min(replicas, |hosts|), round)
  {
    WalkEndsExactly(hosts, ring, hashing, hashing.locate(task), Min(replicas, |hosts|));
    assert |hosts| == 0 ==> hosts == map[];
  }

  /** A ring library that answers a node more than asked for. */
  ghost predicate AnswersOneMore(hashing: Hashing) {
    forall ring: Ring, point: nat, window: nat :: hashing.walk(ring, point, window) == Take(Clockwise(ring, point), window + 1)
  }

  lemma OneMoreWalks(hashing: Hashing)
    requires AnswersOneMore(hashing)
    ensures Walks(hashing)
  {
    forall ring: Ring, point: nat, window: nat ensures Answers(ring, point, window, hashing.walk(ring, point, window)) {
      WindowsAnswer(ring, point, window, 1);
    }
  }

  lemma OneKnownPeer(hosts: Hosts, v: VNode)
    requires v.name in hosts
    ensures KnownPeers(hosts, Firsts([v])) == [hosts[v.name]]
  {
    assert Firsts([v]) == [v.name];
  }

  /** With such a library, two hosts and no replicas, no round ends. */
  lemma ZeroReplicasNeverEnd(hashing: Hashing, a: SeedPeer, b: SeedPeer, round: nat)
    requires AnswersOneMore(hashing)
    ensures
      var hosts, ring := map["a" := a, "b" := b], [VNode(0, "a"), VNode(1, "b")];
      Walks(hashing) && !RoundEnds(hosts, ring, hashing, 0, 0, round)
  {
    var hosts, ring := map["a" := a, "b" := b], [VNode(0, "a"), VNode(1, "b")];
    OneMoreWalks(hashing);
    DoubledGrows(0, round);
    assert Clockwise(ring, 0) == ring;
    assert hashing.walk(ring, 0, 0) == ring[..1] == [ring[0]];
    OneKnownPeer(hosts, ring[0]);
  }

  class SeedPeerSelector {
    /** Where the ring places hosts and tasks. */
    const hashing: Hashing

    /** The seed peers by host name, healthy or not. */
    var hosts: Hosts

    /** The ring of the hosts. */
    var ring: Ring

    /** The ejections of the seed peer proxies by proxy endpoint. */
    var ejections: Ejections.Table

    /** Every failure and answer recorded so far. */
    ghost var history: seq<Ejections.Event>

    ghost predicate Valid()
      reads this
    {
      && Walks(hashing)
      && InStep(hosts, ring, hashing)
      && Named(hosts)
      && ejections == Ejections.Replay(history)
    }

    constructor (hashing: Hashing)
      requires Walks(hashing)
      ensures Valid()
      ensures this.hashing == hashing && hosts == map[] && history == []
    {
      this.hashing := hashing;
      hosts, ring := map[], [];
      ejections, history := map[], [];
    }

    /** Replaces the seed peers and their health, reusing the ring while the names stay. */
    method Update(seedPeers: seq<SeedPeer>)
      requires Valid()
      requires Placed(hashing, ByName(seedPeers).Keys)
      modifies this`hosts, this`ring
      ensures Valid()
      ensures hosts == ByName(seedPeers)
      ensures ring == RingOf(hashing, hosts.Keys)
      ensures hosts.Keys == old(hosts.Keys) ==> ring == old(ring)
    {
      var newHosts := ByName(seedPeers);
      if SameNames(hosts, newHosts) {
        SameSizeSubset(newHosts.Keys, hosts.Keys);
        hosts := newHosts;
      } else {
        var newRing := BuildRing(hashing, newHosts.Keys);
        hosts := newHosts;
        ring := newRing;
      }
      RingUnique(ring, RingOf(hashing, hosts.Keys), hashing, hosts.Keys);
      assert hosts.Keys == old(hosts.Keys) ==> ring == old(ring) by {
        if hosts.Keys == old(hosts.Keys) {
          RingUnique(ring, old(ring), hashing, hosts.Keys);
        }
      }
    }

    /** The healthy replicas of the task; `rounds` is how often the window over the ring doubled. */
    method Select(task: string, replicas: nat) returns (selected: Result<seq<Host>, Error>, ghost rounds: nat)
      requires Walks(hashing)
      requires SelectionEnds(hosts, ring, hashing, task, replicas)
      ensures selected == SelectionOf(hosts, ring, hashing, task, replicas)
      ensures rounds > 0 ==> Min(replicas, |hosts|) * Pow2(rounds) < |ring|
      ensures InStep(hosts, ring, hashing) ==> Min(replicas, |hosts|) * Pow2(rounds) <= |ring|
    {
      rounds := 0;
      if hosts == map[] {
        return Err(HostNotFound("seed peers")), 0;
      }
      var point, expected := hashing.locate(task), Min(replicas, |hosts|);
      var peers: seq<SeedPeer>;
      peers, rounds := WalkRing(hosts, ring, hashing, point, expected);
      KnownReplicas(hosts, ring, point, replicas);
      if InStep(hosts, ring, hashing) {
        RingCoversHosts(ring, hashing, hosts.Keys);
      }
      var healthy := HealthyHosts(peers);
      selected := if healthy == [] then Err(HostNotFound("selected seed peers")) else Ok(healthy);
    }

    /** Every healthy seed peer, each once, in no particular order. */
    method SelectAll() returns (selected: Result<seq<Host>, Error>)
      requires Valid()
      ensures selected.Err? <==> forall n | n in hosts :: !hosts[n].healthy
      ensures selected.Err? ==> selected.error == HostNotFound("seed peers")
      ensures selected.Ok? ==>
                && Distinct(NamesOf(selected.value))
                && (forall n :: n in NamesOf(selected.value) <==> n in hosts && hosts[n].healthy)
                && (forall h | h in selected.value :: h.name in hosts && h == hosts[h.name].host)
    {
      var healthy: seq<Host> := [];
      var names := hosts.Keys;
      while names != {}
        invariant names <= hosts.Keys
        invariant Distinct(NamesOf(healthy))
        invariant forall n :: n in NamesOf(healthy) <==> n in HealthyNames(hosts) - names
        invariant forall h | h in healthy :: h.name in hosts && h == hosts[h.name].host
        decreases |names|
      {
        var name :| name in names;
        names := names - {name};
        if hosts[name].healthy {
          ghost var before := NamesOf(healthy);
          healthy := healthy + [hosts[name].host];
          assert name !in before;
          assert NamesOf(healthy) == before + [name];
        }
      }
      selected := if healthy == [] then Err(HostNotFound("seed peers")) else Ok(healthy);
      assert healthy != [] ==> NamesOf(healthy)[0] in NamesOf(healthy);
      assert forall n | n in hosts && hosts[n].healthy :: n in HealthyNames(hosts) && n in NamesOf(healthy);
    }

    /** Records a failure to connect, ejecting the proxy after five in a row. */
    method OnFailure(endpoint: string, now: nat)
      requires Valid()
      modifies this`ejections, this`history
      ensures Valid()
      ensures history == old(history) + [Ejections.Failed(endpoint, now)]
      ensures endpoint in ejections
      ensures forall e | e != endpoint :: (e in ejections <==> e in old(ejections)) && (e in ejections ==> ejections[e] == old(ejections[e]))
    {
      var ejection := if endpoint in ejections then ejections[endpoint] else Ejections.FRESH;
      ejection := ejection.(failedCount := ejection.failedCount + 1);
      if ejection.failedCount >= Ejections.MAX_FAILED_COUNT {
        ejection := Ejections.Ejection(0, Some(now));
      }
      ghost var failed := Ejections.Failed(endpoint, now);
      Ejections.ReplayStep(history, failed);
      assert ejections[endpoint := ejection] == Ejections.Step(ejections, failed);
      ejections := ejections[endpoint := ejection];
      history := history + [failed];
    }

    /** Records an answer, clearing the failures of the proxy. */
    method OnSuccess(endpoint: string)
      requires Valid()
      modifies this`ejections, this`history
      ensures Valid()
      ensures history == old(history) + [Ejections.Answered(endpoint)]
      ensures endpoint !in ejections && forall e | e != endpoint && e in old(ejections) :: e in ejections && ejections[e] == old(ejections[e])
    {
      if endpoint in ejections {
        ejections := ejections - {endpoint};
      } else {
        assert ejections - {endpoint} == ejections;
      }
      Ejections.ReplayStep(history, Ejections.Answered(endpoint));
      history := history + [Ejections.Answered(endpoint)];
    }

    /** Whether the last five failures in a row ended less than the cooldown ago. */
    method IsEjected(endpoint: string, now: nat) returns (ejected: bool)
      requires Valid()
      ensures
        var streak := Ejections.Streak(history, endpoint);
        ejected <==> |streak| >= 5 && now < streak[5 * (|streak| / 5) - 1] + 30_000_000_000
    {
      ejected := Ejections.IsEjected(ejections, endpoint, now);
      Ejections.EjectedExactly(history, endpoint, now);
    }
  }

  /** The step behind the reused ring: as many names, all known, are the same names. */
  lemma {:induction false} SameSizeSubset(a: set<string>, b: set<string>)
    requires a <= b && |a| == |b|
    ensures a == b
  {
    if a == {} {
    } else {
      var x :| x in a;
      SameSizeSubset(a - {x}, b - {x});
    }
  }

  /** The comparison of the fast path finds exactly equal host names. */
  lemma SameNamesExactly(current: Hosts, hosts: Hosts)
    ensures SameNames(current, hosts) <==> current.Keys == hosts.Keys
  {
    assert |current| == |current.Keys| && |hosts| == |hosts.Keys|;
    if SameNames(current, hosts) {
      SameSizeSubset(hosts.Keys, current.Keys);
    }
  }
}
