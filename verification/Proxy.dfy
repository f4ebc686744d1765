/**
 Preheats, deletes and downloads of one task: which seed peers each addresses, and that a
 download only ever asks seed peers the preheat wrote to.
 */
module Proxy {
  import opened Results
  import opened HashRing
  import opened SeedPeers
  import opened Selector
  import opened ConcurrentUpdates
  import opened Sequences
  import Ejections

  datatype Scope = Default | AllSeedPeers

  /** The replicas of a request are cast to 32 bits for the selection. */
  function AsU32(n: nat): nat {
    n % 0x1_0000_0000
  }

  /** The cast keeps what fits and drops multiples of 2^32. */
  lemma CastWraps(n: nat)
    ensures n < 4294967296 ==> AsU32(n) == n
    ensures AsU32(n + 4294967296) == AsU32(n)
  {
  }

  /** The endpoints of the hosts, when every host has a valid address. */
  function Endpoints(hosts: seq<Host>, endpointOf: Host -> Option<string>): Option<seq<string>> {
    if hosts == [] then Some([]) else
      match (Endpoints(hosts[..|hosts| - 1], endpointOf), endpointOf(hosts[|hosts| - 1]))
      case (Some(rest), Some(endpoint)) => Some(rest + [endpoint])
      case _ => None
  }

  /** The endpoints that are not ejected, in their order. */
  function Admitted(endpoints: seq<string>, table: Ejections.Table, now: nat): seq<string> {
    if endpoints == [] then [] else
      var rest := Admitted(endpoints[..|endpoints| - 1], table, now);
      var last := endpoints[|endpoints| - 1];
      if Ejections.IsEjected(table, last, now) then rest else rest + [last]
  }

  /** What a lookup answers after the selection. */
  function Lookup(selection: Result<seq<Host>, Error>, table: Ejections.Table, now: nat, endpointOf: Host -> Option<string>)
    : Result<seq<string>, Error>
  {
    match selection
    case Err(_) => Err(Internal("failed to select seed peers"))
    case Ok(selected) =>
      match Endpoints(selected, endpointOf)
      case None => Err(Internal("invalid ip"))
      case Some(endpoints) =>
        var admitted := Admitted(endpoints, table, now);
        if admitted == [] then Err(Internal("seed peers of task are all ejected")) else Ok(admitted)
  }

  /** Waits for every download, failing with one that failed. */
  method DownloadAll(selected: seq<Host>, download: Host -> Result<(), Error>)
    returns (result: Result<(), Error>, reached: seq<Host>)
    ensures result.Ok? <==> forall h | h in selected :: download(h).Ok?
    ensures result.Ok? ==> reached == selected
    ensures result.Err? ==> exists h :: h in selected && download(h) == result
  {
    reached := [];
    for i := 0 to |selected|
      invariant reached == selected[..i]
      invariant forall h | h in reached :: download(h).Ok?
    {
      var outcome := download(selected[i]);
      if outcome.Err? {
        return outcome, reached;
      }
      reached := reached + [selected[i]];
    }
    assert selected[..|selected|] == selected;
    result := Ok(());
  }

  /** Seed peers given by the caller must be some, each with a name of its own. */
  method ValidateSeedPeers(seedPeers: seq<SeedPeer>) returns (result: Result<(), Error>)
    ensures result.Ok? <==>
            && seedPeers != []
            && (forall p | p in seedPeers :: p.host.name != "")
            && DistinctNames(seedPeers)
    ensures result.Err? ==> result.error.InvalidArgument?
  {
    if seedPeers == [] {
      return Err(InvalidArgument("seed peers must not be empty"));
    }
    var names: set<string> := {};
    for i := 0 to |seedPeers|
      invariant forall n :: n in names <==> exists k :: 0 <= k < i && seedPeers[k].host.name == n
      invariant forall k | 0 <= k < i :: seedPeers[k].host.name != ""
      invariant forall j, k | 0 <= j < k < i :: seedPeers[j].host.name != seedPeers[k].host.name
    {
      var name := seedPeers[i].host.name;
      if name == "" {
        return Err(InvalidArgument("seed peer name must not be empty"));
      }
      if name in names {
        return Err(InvalidArgument("seed peer name is duplicated"));
      }
      names := names + {name};
    }
    result := Ok(());
  }

  ghost predicate DistinctNames(seedPeers: seq<SeedPeer>) {
    forall i, j | 0 <= i < j < |seedPeers| :: seedPeers[i].host.name != seedPeers[j].host.name
  }

  lemma LastNameIsNew(seedPeers: seq<SeedPeer>, n: nat)
    requires n < |seedPeers| && DistinctNames(seedPeers)
    ensures seedPeers[n].host.name !in ByName(seedPeers[..n])
  {
    forall p | p in seedPeers[..n] ensures p.host.name != seedPeers[n].host.name {
      var k :| 0 <= k < n && seedPeers[k] == p;
    }
  }

  /** So an update with valid seed peers keeps as many hosts as seed peers. */
  lemma {:induction false} ValidSeedPeersAreKept(seedPeers: seq<SeedPeer>)
    requires DistinctNames(seedPeers)
    ensures |ByName(seedPeers)| == |seedPeers|
  {
    if seedPeers != [] {
      var n := |seedPeers| - 1;
      ValidSeedPeersAreKept(seedPeers[..n]);
      LastNameIsNew(seedPeers, n);
    }
  }

  class Proxy {
    const selector: SeedPeerSelector

    /** The proxy endpoint of a host, none when its address does not parse. */
    const endpointOf: Host -> Option<string>

    constructor (selector: SeedPeerSelector, endpointOf: Host -> Option<string>)
      ensures this.selector == selector && this.endpointOf == endpointOf
    {
      this.selector, this.endpointOf := selector, endpointOf;
    }

    method LookupProxyEndpoints(task: string, replicas: nat, now: nat) returns (result: Result<seq<string>, Error>)
      requires selector.Valid()
      requires SelectionEnds(selector.hosts, selector.ring, selector.hashing, task, replicas % 0x1_0000_0000)
      ensures result == Lookup(SelectionOf(selector.hosts, selector.ring, selector.hashing, task, replicas % 0x1_0000_0000),
                               Ejections.Replay(selector.history), now, endpointOf)
      ensures result.Ok? ==> result.value != []
      ensures
        (forall n | n in selector.hosts :: !selector.hosts[n].healthy)
        ==> result == Err(Internal("failed to select seed peers"))
      ensures
        && replicas % 0x1_0000_0000 != 0
        && (forall n | n in Replicas(selector.hosts, selector.ring, selector.hashing.locate(task), replicas % 0x1_0000_0000) ::
              !selector.hosts[n].healthy)
        ==> result == Err(Internal("failed to select seed peers"))
    {
      if forall n | n in selector.hosts :: !selector.hosts[n].healthy {
        NoneHealthyFails(selector.hosts, selector.ring, selector.hashing, task, AsU32(replicas));
      }
      SuccessNeedsHealthy(selector.hosts, selector.ring, selector.hashing.locate(task), AsU32(replicas));
      var selection, _ := selector.Select(task, AsU32(replicas));
      if selection.Err? {
        return Err(Internal("failed to select seed peers"));
      }
      var all := Endpoints(selection.value, endpointOf);
      if all.None? {
        return Err(Internal("invalid ip"));
      }
      var endpoints: seq<string> := [];
      for i := 0 to |all.value|
        invariant endpoints == Admitted(all.value[..i], selector.ejections, now)
      {
        assert all.value[..i + 1][..i] == all.value[..i];
        if !Ejections.IsEjected(selector.ejections, all.value[i], now) {
          endpoints := endpoints + [all.value[i]];
        }
      }
      assert all.value[..|all.value|] == all.value;
      result := if endpoints == [] then Err(Internal("seed peers of task are all ejected")) else Ok(endpoints);
    }

    method SelectSeedPeers(task: string, scope: Scope, replicas: nat) returns (selected: Result<seq<Host>, Error>)
      requires selector.Valid()
      requires scope == Default ==> SelectionEnds(selector.hosts, selector.ring, selector.hashing, task, replicas % 0x1_0000_0000)
      ensures scope == Default ==>
                selected == SelectionOf(selector.hosts, selector.ring, selector.hashing, task, replicas % 0x1_0000_0000)
      ensures scope == AllSeedPeers ==> (selected.Ok? <==> exists n :: n in selector.hosts && selector.hosts[n].healthy)
      ensures scope == AllSeedPeers && selected.Ok? ==>
                && Distinct(NamesOf(selected.value))
                && (forall n :: n in NamesOf(selected.value) <==> n in selector.hosts && selector.hosts[n].healthy)
                && (forall h | h in selected.value :: h.name in selector.hosts && h == selector.hosts[h.name].host)
    {
      match scope
      case Default =>
        ghost var rounds;
        selected, rounds := selector.Select(task, AsU32(replicas));
      case AllSeedPeers =>
        selected := selector.SelectAll();
    }

    /**
     Has every selected seed peer download the task; `download` is how each ends, retries
     included. Success means that every selected seed peer has the task.
     */
    method Preheat(task: string, scope: Scope, replicas: nat, download: Host -> Result<(), Error>)
      returns (result: Result<(), Error>, reached: seq<Host>)
      requires selector.Valid()
      requires scope == Default ==> SelectionEnds(selector.hosts, selector.ring, selector.hashing, task, replicas % 0x1_0000_0000)
      ensures result.Ok? ==> forall h | h in reached :: download(h).Ok?
      ensures
        var selection := SelectionOf(selector.hosts, selector.ring, selector.hashing, task, replicas % 0x1_0000_0000);
        && (scope == Default && result.Ok? ==> selection == Ok(reached) && |reached| >= replicas)
        && (scope == Default && selection.Ok? && |selection.value| >= replicas ==>
              (forall h | h in selection.value :: download(h).Ok?) ==> result.Ok?)
        && (scope == Default && selection.Err? ==> result == Err(Internal("failed to select seed peers")))
        && (scope == Default && selection.Ok? && |selection.value| < replicas ==> result == Err(Internal("insufficient seed peers")))
        && (scope == Default && selection.Ok? && |selection.value| >= replicas && result.Err? ==>
              exists h :: h in selection.value && download(h) == result)
      ensures scope == AllSeedPeers && (forall n | n in selector.hosts :: !selector.hosts[n].healthy) ==>
                result == Err(Internal("failed to select seed peers"))
      ensures scope == AllSeedPeers && result.Err? && (exists n :: n in selector.hosts && selector.hosts[n].healthy) ==>
                exists n :: n in selector.hosts && selector.hosts[n].healthy && download(selector.hosts[n].host) == result
      ensures scope == AllSeedPeers && result.Ok? ==>
                && (exists n :: n in selector.hosts && selector.hosts[n].healthy)
                && forall n :: n in NamesOf(reached) <==> n in selector.hosts && selector.hosts[n].healthy
      ensures scope == AllSeedPeers && (exists n :: n in selector.hosts && selector.hosts[n].healthy) ==>
                (forall n | n in selector.hosts && selector.hosts[n].healthy :: download(selector.hosts[n].host).Ok?) ==> result.Ok?
    {
      reached := [];
      var selection := SelectSeedPeers(task, scope, replicas);
      if selection.Err? {
        return Err(Internal("failed to select seed peers")), [];
      }
      var selected := selection.value;
      if scope == Default && |selected| < replicas {
        return Err(Internal("insufficient seed peers")), [];
      }
      result, reached := DownloadAll(selected, download);
      assert scope == AllSeedPeers ==> forall h | h in selected :: h.name in selector.hosts && selector.hosts[h.name].healthy by {
        forall h | h in selected ensures h.name in NamesOf(selected) {
          var i :| 0 <= i < |selected| && selected[i] == h;
          assert NamesOf(selected)[i] == h.name;
        }
      }
    }
  }

  // ---------- Preheats and downloads agree ----------

  /** A default preheat that finds enough seed peers has reached every replica of the task. */
  lemma PreheatReachesEveryReplica(hosts: Hosts, ring: Ring, point: nat, replicas: nat, reached: seq<Host>)
    requires Named(hosts)
    requires Selection(hosts, ring, point, AsU32(replicas)) == Ok(reached) && |reached| >= replicas >= 1
    ensures AsU32(replicas) == replicas == |reached|
    ensures NamesOf(reached) == Replicas(hosts, ring, point, replicas)
  {
    var names := Replicas(hosts, ring, point, AsU32(replicas));
    SelectionIsStable(hosts, hosts, ring, point, AsU32(replicas));
    KeepElements(names, HealthyNames(hosts));
    assert |names| <= AsU32(replicas) <= replicas <= |NamesOf(reached)| <= |names|;
    KeepWhole(names, HealthyNames(hosts));
  }

  lemma {:induction false} KeepWhole(names: seq<string>, kept: set<string>)
    ensures |Keep(names, kept)| == |names| ==> Keep(names, kept) == names
  {
    if names != [] {
      KeepWhole(names[..|names| - 1], kept);
      KeepElements(names[..|names| - 1], kept);
    }
  }

  /** The shared hosts and those of every call in flight are named `names`. */
  ghost predicate AllNamed(state: State, names: set<string>) {
    && state.shared.hosts.Keys == names && Named(state.shared.hosts)
    && forall call | call in state.calls :: state.calls[call].hosts.Keys == names && Named(state.calls[call].hosts)
  }

  /** While every update, in flight or to come, keeps the host names, the ring stays as it is, rebuilt or not. */
  lemma {:induction false} NamesKept(state: State, actions: seq<Action>, hashing: Hashing, universe: set<string>)
    requires Placed(hashing, universe)
    requires Invariant(state, hashing, universe) && Possible(state, actions, hashing, universe)
    requires AllNamed(state, state.shared.hosts.Keys)
    requires forall a | a in actions && a.Check? :: a.hosts.Keys == state.shared.hosts.Keys && Named(a.hosts)
    ensures
      var after := Run(state, actions);
      && Invariant(after, hashing, universe)
      && AllNamed(after, state.shared.hosts.Keys)
      && after.shared.ring == state.shared.ring
  {
    if actions != [] {
      var before, last := actions[..|actions| - 1], actions[|actions| - 1];
      assert last in actions && forall a | a in before :: a in actions;
      NamesKept(state, before, hashing, universe);
      StepRefines(Run(state, before), last, hashing, universe);
      RingUnique(Run(state, actions).shared.ring, state.shared.ring, hashing, state.shared.hosts.Keys);
    }
  }

  /**
   After a default preheat with `k` replicas, a selection of at most `k` replicas is the
   currently healthy part of the first seed peers the preheat reached, in the same order.
   A delete with `k` replicas so addresses all of them that are healthy by then.
   */
  lemma SelectionsStayOnPreheatedSeedPeers(
      before: Hosts, after: Hosts, ring: Ring, point: nat, k: nat, reached: seq<Host>, replicas: nat)
    requires Named(before) && Named(after) && after.Keys == before.Keys
    requires Selection(before, ring, point, AsU32(k)) == Ok(reached) && |reached| >= k
    requires 1 <= replicas <= k
    ensures |reached| == k
    ensures
      var healthy := Keep(NamesOf(reached)[..replicas], HealthyNames(after));
      match Selection(after, ring, point, AsU32(replicas))
      case Ok(selected) =>
        && NamesOf(selected) == healthy
        && forall h | h in selected :: h.name in after && h == after[h.name].host
      case Err(_) => healthy == []
  {
    PreheatReachesEveryReplica(before, ring, point, k, reached);
    assert AsU32(replicas) == replicas;
    SelectionIsStable(after, before, ring, point, replicas);
    ReplicasArePrefixes(before, ring, point, replicas, k);
    assert |before| == |before.Keys|;
    var names := Replicas(after, ring, point, replicas);
    assert names == NamesOf(reached)[..replicas];
    HealthyHostsNames(after, names);
  }

  /**
   So through any interleaving of updates that keep the host names, those in flight at the
   preheat included, and whatever is ejected, a lookup with at most `k` replicas answers only
   proxies of seed peers the preheat reached.
   */
  lemma LookupsStayOnPreheatedSeedPeers(
      state: State, actions: seq<Action>, hashing: Hashing, universe: set<string>,
      point: nat, k: nat, reached: seq<Host>,
      replicas: nat, table: Ejections.Table, now: nat, endpointOf: Host -> Option<string>)
    requires Placed(hashing, universe)
    requires Invariant(state, hashing, universe) && Possible(state, actions, hashing, universe)
    requires AllNamed(state, state.shared.hosts.Keys)
    requires forall a | a in actions && a.Check? :: a.hosts.Keys == state.shared.hosts.Keys && Named(a.hosts)
    requires Selection(state.shared.hosts, state.shared.ring, point, AsU32(k)) == Ok(reached) && |reached| >= k
    requires 1 <= replicas <= k
    ensures
      var after := Run(state, actions).shared;
      var result := Lookup(Selection(after.hosts, after.ring, point, AsU32(replicas)), table, now, endpointOf);
      result.Ok? ==>
        forall e | e in result.value ::
          && !Ejections.IsEjected(table, e, now)
          && exists h :: h in reached && h.name in after.hosts && endpointOf(after.hosts[h.name].host) == Some(e)
  {
    var shared, after := state.shared, Run(state, actions).shared;
    NamesKept(state, actions, hashing, universe);
    SelectionsStayOnPreheatedSeedPeers(shared.hosts, after.hosts, shared.ring, point, k, reached, replicas);
    var selection := Selection(after.hosts, after.ring, point, AsU32(replicas));
    if selection.Ok? {
      LookupAnswersSelected(selection.value, table, now, endpointOf);
      KeepElements(NamesOf(reached)[..replicas], HealthyNames(after.hosts));
      forall h | h in selection.value ensures exists r :: r in reached && r.name == h.name {
        SelectedAreReached(selection.value, reached, h);
      }
    }
  }

  lemma SelectedAreReached(selected: seq<Host>, reached: seq<Host>, h: Host)
    requires forall n | n in NamesOf(selected) :: n in NamesOf(reached)
    requires h in selected
    ensures exists r :: r in reached && r.name == h.name
  {
    var i :| 0 <= i < |selected| && selected[i] == h;
    assert NamesOf(selected)[i] == h.name;
    assert h.name in NamesOf(reached);
    var j :| 0 <= j < |reached| && NamesOf(reached)[j] == h.name;
    assert reached[j] in reached;
  }

  /**
   A preheat of all seed peers reaches only those healthy then. Selections stay on them,
   however the health changes, exactly when every replica was among them.
   */
  lemma AllSeedPeersCoverExactlyHealthyReplicas(before: Hosts, ring: Ring, point: nat, replicas: nat)
    requires Named(before)
    ensures
      (forall after: Hosts, selected ::
         Named(after) && after.Keys == before.Keys && Selection(after, ring, point, replicas) == Ok(selected) ==>
         forall n | n in NamesOf(selected) :: n in HealthyNames(before))
      <==> forall n | n in Replicas(before, ring, point, replicas) :: n in HealthyNames(before)
  {
    var names := Replicas(before, ring, point, replicas);
    forall after: Hosts, selected | Named(after) && after.Keys == before.Keys && Selection(after, ring, point, replicas) == Ok(selected)
      ensures NamesOf(selected) == Keep(names, HealthyNames(after))
      ensures forall n | n in NamesOf(selected) :: n in names
    {
      SelectionIsStable(after, before, ring, point, replicas);
      KeepElements(names, HealthyNames(after));
    }
    var recovered: Hosts := map n | n in before :: SeedPeer(before[n].host, true);
    assert recovered.Keys == before.Keys;
    SelectionIsStable(recovered, before, ring, point, replicas);
    KeepAll(names, HealthyNames(recovered));
    if names != [] {
      assert Selection(recovered, ring, point, replicas).Ok?;
    }
  }

  /** A replica that was not: it recovers, and a task of one replica is served by a seed peer the preheat missed. */
  lemma AllSeedPeersMissRecoveredReplica(a: Host, b: Host, hashing: Hashing)
    requires a.name == "a" && b.name == "b" && hashing.place("a") == [1] && hashing.place("b") == [0]
    ensures
      var ring := [VNode(0, "b"), VNode(1, "a")];
      var before := map["a" := SeedPeer(a, true), "b" := SeedPeer(b, false)];
      var after := map["a" := SeedPeer(a, true), "b" := SeedPeer(b, true)];
      && InStep(before, ring, hashing) && InStep(after, ring, hashing)
      && HealthyNames(before) == {"a"}
      && Selection(after, ring, 0, 1) == Ok([b])
  {
    var ring := [VNode(0, "b"), VNode(1, "a")];
    var after := map["a" := SeedPeer(a, true), "b" := SeedPeer(b, true)];
    FirstIsReplica(after, ring[0], ring[1]);
    assert PeersOf(after, ["b"]) == [SeedPeer(b, true)];
    assert HealthyHosts([SeedPeer(b, true)]) == [b];
  }

  /** On a ring of two nodes of known hosts, a task before the first has the first for its replica. */
  lemma FirstIsReplica(hosts: Hosts, v: VNode, w: VNode)
    requires v.name in hosts && w.name in hosts
    ensures Replicas(hosts, [v, w], 0, 1) == [v.name]
  {
    var ring := [v, w];
    assert Clockwise(ring, 0) == ring;
    assert ring[..1] == [v];
    assert Firsts([v]) == [v.name];
    FirstsPrefix([v], ring);
    KeepPrefix([v.name], Firsts(ring), hosts.Keys);
    assert Keep([v.name], hosts.Keys) == [v.name];
  }

  /** A lookup without a selection fails. */
  lemma LookupNeedsSelection(selection: Result<seq<Host>, Error>, table: Ejections.Table, now: nat, endpointOf: Host -> Option<string>)
    ensures selection.Err? ==> Lookup(selection, table, now, endpointOf) == Err(Internal("failed to select seed peers"))
    ensures Lookup(selection, table, now, endpointOf).Ok? ==> selection.Ok? && Lookup(selection, table, now, endpointOf).value != []
  {
  }

  lemma {:induction false} EndpointsInOrder(hosts: seq<Host>, endpointOf: Host -> Option<string>)
    requires Endpoints(hosts, endpointOf).Some?
    ensures
      var endpoints := Endpoints(hosts, endpointOf).value;
      |endpoints| == |hosts| && forall i | 0 <= i < |hosts| :: endpointOf(hosts[i]) == Some(endpoints[i])
  {
    if hosts != [] {
      EndpointsInOrder(hosts[..|hosts| - 1], endpointOf);
    }
  }

  /** `picked` are the positions of the endpoints that are not ejected, in order. */
  ghost predicate PicksAdmitted(endpoints: seq<string>, table: Ejections.Table, now: nat, picked: seq<nat>) {
    && Ascends(picked)
    && (forall k | 0 <= k < |picked| :: picked[k] < |endpoints|)
    && (forall i: nat | i < |endpoints| :: i in picked <==> !Ejections.IsEjected(table, endpoints[i], now))
  }

  lemma PickOneMore(endpoints: seq<string>, table: Ejections.Table, now: nat, picked: seq<nat>) returns (more: seq<nat>)
    requires endpoints != [] && PicksAdmitted(endpoints[..|endpoints| - 1], table, now, picked)
    ensures
      var n := |endpoints| - 1;
      more == picked + (if Ejections.IsEjected(table, endpoints[n], now) then [] else [n])
    ensures PicksAdmitted(endpoints, table, now, more)
  {
    var n := |endpoints| - 1;
    more := picked + (if Ejections.IsEjected(table, endpoints[n], now) then [] else [n]);
    assert n !in picked;
    forall i: nat | i < n ensures i in more <==> !Ejections.IsEjected(table, endpoints[i], now) {
      assert endpoints[..n][i] == endpoints[i];
    }
  }

  lemma {:induction false} AdmittedInOrder(endpoints: seq<string>, table: Ejections.Table, now: nat) returns (picked: seq<nat>)
    ensures PicksAdmitted(endpoints, table, now, picked)
    ensures |Admitted(endpoints, table, now)| == |picked|
    ensures forall k | 0 <= k < |picked| :: Admitted(endpoints, table, now)[k] == endpoints[picked[k]]
  {
    if endpoints == [] {
      return [];
    }
    var n := |endpoints| - 1;
    var before := AdmittedInOrder(endpoints[..n], table, now);
    picked := PickOneMore(endpoints, table, now, before);
    assert forall k | 0 <= k < |before| :: endpoints[..n][before[k]] == endpoints[before[k]];
  }

  ghost predicate Ascends(indices: seq<nat>) {
    forall j, k | 0 <= j < k < |indices| :: indices[j] < indices[k]
  }

  /** A lookup answers the proxies of the selected seed peers in the order of the selection, the ejected ones left out. */
  lemma LookupKeepsOrder(selected: seq<Host>, table: Ejections.Table, now: nat, endpointOf: Host -> Option<string>)
      returns (picked: seq<nat>)
    requires Lookup(Ok(selected), table, now, endpointOf).Ok?
    ensures forall i | 0 <= i < |selected| :: endpointOf(selected[i]).Some?
    ensures forall j, k | 0 <= j < k < |picked| :: picked[j] < picked[k] < |selected|
    ensures forall k | 0 <= k < |picked| :: picked[k] < |selected|
    ensures forall i: nat | i < |selected| :: i in picked <==> !Ejections.IsEjected(table, endpointOf(selected[i]).value, now)
    ensures
      var answer := Lookup(Ok(selected), table, now, endpointOf).value;
      |answer| == |picked| && forall k | 0 <= k < |picked| :: endpointOf(selected[picked[k]]) == Some(answer[k])
  {
    EndpointsInOrder(selected, endpointOf);
    picked := AdmittedInOrder(Endpoints(selected, endpointOf).value, table, now);
  }

  /** A lookup answers exactly the selected proxies that are not ejected, and fails when an address is invalid or all are ejected. */
  lemma LookupAnswersSelected(selected: seq<Host>, table: Ejections.Table, now: nat, endpointOf: Host -> Option<string>)
    ensures
      match Lookup(Ok(selected), table, now, endpointOf)
      case Ok(endpoints) =>
        && endpoints != []
        && forall e :: e in endpoints <==> !Ejections.IsEjected(table, e, now) && exists h :: h in selected && endpointOf(h) == Some(e)
      case Err(_) =>
        || (exists h :: h in selected && endpointOf(h).None?)
        || (forall h | h in selected :: endpointOf(h).Some? && Ejections.IsEjected(table, endpointOf(h).value, now))
  {
    EndpointsElements(selected, endpointOf);
    match Endpoints(selected, endpointOf)
    case None =>
    case Some(endpoints) =>
      AdmittedElements(endpoints, table, now);
      forall h | h in selected && Admitted(endpoints, table, now) == []
        ensures Ejections.IsEjected(table, endpointOf(h).value, now)
      {
        assert endpointOf(h).value in endpoints;
      }
  }

  lemma {:induction false} EndpointsElements(hosts: seq<Host>, endpointOf: Host -> Option<string>)
    ensures
      match Endpoints(hosts, endpointOf)
      case Some(endpoints) =>
        && (forall h | h in hosts :: endpointOf(h).Some?)
        && forall e :: e in endpoints <==> exists h :: h in hosts && endpointOf(h) == Some(e)
      case None => exists h :: h in hosts && endpointOf(h).None?
  {
    if hosts != [] {
      var init, last := hosts[..|hosts| - 1], hosts[|hosts| - 1];
      EndpointsElements(init, endpointOf);
      assert hosts == init + [last];
      assert forall h :: h in hosts <==> h in init || h == last;
      assert last in hosts;
    }
  }

  lemma {:induction false} AdmittedElements(endpoints: seq<string>, table: Ejections.Table, now: nat)
    ensures forall e :: e in Admitted(endpoints, table, now) <==> e in endpoints && !Ejections.IsEjected(table, e, now)
  {
    if endpoints != [] {
      AdmittedElements(endpoints[..|endpoints| - 1], table, now);
      assert endpoints == endpoints[..|endpoints| - 1] + [endpoints[|endpoints| - 1]];
    }
  }

}
