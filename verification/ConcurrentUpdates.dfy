/**
 Any number of concurrent updates of the seed peers, step by step. A call compares the host
 names and perhaps commits under the lock, else builds a ring outside the lock, and commits
 hosts and ring under the lock again. Selections read hosts and ring under the same lock,
 so what a selection sees is the shared part of a reachable state.
 */
module ConcurrentUpdates {
  import opened HashRing
  import opened SeedPeers
  import Selector

  /** A call between its steps: about to build its ring, or about to commit it. */
  datatype Call = Rebuilding(hosts: Hosts) | Rebuilt(hosts: Hosts, ring: Ring)

  datatype Shared = Shared(hosts: Hosts, ring: Ring)

  datatype State = State(shared: Shared, calls: map<nat, Call>)

  datatype Action = Check(call: nat, hosts: Hosts) | Rebuild(call: nat, ring: Ring) | Commit(call: nat)

  /** Whether the step can happen. The names of all calls come from `universe`. */
  ghost predicate Enabled(state: State, action: Action, hashing: Hashing, universe: set<string>) {
    match action
    case Check(call, hosts) => call !in state.calls && hosts.Keys <= universe
    case Rebuild(call, ring) =>
      call in state.calls && state.calls[call].Rebuilding? && IsRing(ring, hashing, state.calls[call].hosts.Keys)
    case Commit(call) => call in state.calls && state.calls[call].Rebuilt?
  }

  function Next(state: State, action: Action): State {
    match action
    case Check(call, hosts) =>
      if SameNames(state.shared.hosts, hosts) then state.(shared := Shared(hosts, state.shared.ring))
      else state.(calls := state.calls[call := Rebuilding(hosts)])
    case Rebuild(call, ring) =>
      if call in state.calls then state.(calls := state.calls[call := Rebuilt(state.calls[call].hosts, ring)]) else state
    case Commit(call) =>
      if call in state.calls && state.calls[call].Rebuilt?
      then State(Shared(state.calls[call].hosts, state.calls[call].ring), state.calls - {call})
      else state
  }

  /** The hosts of the call that returns with this step, if one does. */
  function Returning(state: State, action: Action): seq<Hosts> {
    match action
    case Check(call, hosts) => if SameNames(state.shared.hosts, hosts) then [hosts] else []
    case Rebuild(_, _) => []
    case Commit(call) => if call in state.calls then [state.calls[call].hosts] else []
  }

  function Run(state: State, actions: seq<Action>): State {
    if actions == [] then state else Next(Run(state, actions[..|actions| - 1]), actions[|actions| - 1])
  }

  ghost predicate Possible(state: State, actions: seq<Action>, hashing: Hashing, universe: set<string>) {
    actions == [] ||
    (&& Possible(state, actions[..|actions| - 1], hashing, universe)
     && Enabled(Run(state, actions[..|actions| - 1]), actions[|actions| - 1], hashing, universe))
  }

  /** The hosts of the calls in the order they return. */
  function Returned(state: State, actions: seq<Action>): seq<Hosts> {
    if actions == [] then [] else
      var before := actions[..|actions| - 1];
      Returned(state, before) + Returning(Run(state, before), actions[|actions| - 1])
  }

  /** The specification: each update at once replaces the hosts and rebuilds the ring from their names. */
  ghost function ReplaceAll(shared: Shared, updates: seq<Hosts>, hashing: Hashing): Shared
    requires forall hosts | hosts in updates :: Placed(hashing, hosts.Keys)
  {
    if updates == [] then shared else
      var hosts := updates[|updates| - 1];
      Shared(hosts, RingOf(hashing, hosts.Keys))
  }

  ghost predicate Invariant(state: State, hashing: Hashing, universe: set<string>) {
    && state.shared.hosts.Keys <= universe
    && InStep(state.shared.hosts, state.shared.ring, hashing)
    && forall call | call in state.calls ::
         && state.calls[call].hosts.Keys <= universe
         && (state.calls[call].Rebuilt? ==> IsRing(state.calls[call].ring, hashing, state.calls[call].hosts.Keys))
  }

  /** Every step keeps hosts and ring in step, and a returning call has just replaced both. */
  lemma StepRefines(state: State, action: Action, hashing: Hashing, universe: set<string>)
    requires Placed(hashing, universe)
    requires Invariant(state, hashing, universe) && Enabled(state, action, hashing, universe)
    ensures Invariant(Next(state, action), hashing, universe)
    ensures forall hosts | hosts in Returning(state, action) :: hosts.Keys <= universe && Placed(hashing, hosts.Keys)
    ensures Next(state, action).shared == ReplaceAll(state.shared, Returning(state, action), hashing)
  {
    var after := Next(state, action);
    if action.Check? && SameNames(state.shared.hosts, action.hosts) {
      Selector.SameSizeSubset(action.hosts.Keys, state.shared.hosts.Keys);
    }
    if Returning(state, action) != [] {
      RingUnique(after.shared.ring, RingOf(hashing, after.shared.hosts.Keys), hashing, after.shared.hosts.Keys);
    }
  }

  /** A call compares, builds and commits once each, unless it returns at once, and the other calls stay as they are. */
  lemma CallsProgress(state: State, action: Action, hashing: Hashing, universe: set<string>)
    requires Enabled(state, action, hashing, universe)
    ensures forall call | call != action.call ::
              (call in Next(state, action).calls <==> call in state.calls)
              && (call in state.calls ==> Next(state, action).calls[call] == state.calls[call])
    ensures
      var after, call := Next(state, action), action.call;
      match action
      case Check(_, hosts) =>
        if hosts.Keys == state.shared.hosts.Keys then after.shared == Shared(hosts, state.shared.ring) && call !in after.calls
        else after.shared == state.shared && call in after.calls && after.calls[call] == Rebuilding(hosts)
      case Rebuild(_, ring) =>
        after.shared == state.shared && call in after.calls && after.calls[call] == Rebuilt(state.calls[call].hosts, ring)
      case Commit(_) =>
        after.shared == Shared(state.calls[call].hosts, state.calls[call].ring) && call !in after.calls
  {
    if action.Check? {
      Selector.SameNamesExactly(state.shared.hosts, action.hosts);
    }
  }

  /**
   However the steps of the calls interleave, hosts and ring are what the calls would have
   left running one at a time, each at once, in the order they return.
   */
  lemma {:induction false} UpdatesRefineReplacement(state: State, actions: seq<Action>, hashing: Hashing, universe: set<string>)
    requires Placed(hashing, universe)
    requires Invariant(state, hashing, universe)
    requires Possible(state, actions, hashing, universe)
    ensures Invariant(Run(state, actions), hashing, universe)
    ensures forall hosts | hosts in Returned(state, actions) :: hosts.Keys <= universe && Placed(hashing, hosts.Keys)
    ensures Run(state, actions).shared == ReplaceAll(state.shared, Returned(state, actions), hashing)
  {
    if actions != [] {
      var before, last := actions[..|actions| - 1], actions[|actions| - 1];
      UpdatesRefineReplacement(state, before, hashing, universe);
      StepRefines(Run(state, before), last, hashing, universe);
    }
  }

  /** So in every reachable state the ring names exactly the hosts, and every task finds its replicas. */
  lemma RingNamesTheHosts(actions: seq<Action>, hashing: Hashing, universe: set<string>, point: nat, replicas: nat)
    requires Placed(hashing, universe)
    requires Possible(State(Shared(map[], []), map[]), actions, hashing, universe)
    ensures
      var shared := Run(State(Shared(map[], []), map[]), actions).shared;
      && (forall name :: name in shared.hosts <==> exists v :: v in shared.ring && v.name == name)
      && |Replicas(shared.hosts, shared.ring, point, replicas)| == Min(replicas, |shared.hosts|)
  {
    var empty := State(Shared(map[], []), map[]);
    UpdatesRefineReplacement(empty, actions, hashing, universe);
    var shared := Run(empty, actions).shared;
    ReplicasAreFound(shared.hosts, shared.ring, hashing, point, replicas);
    forall name | name in shared.hosts ensures exists v :: v in shared.ring && v.name == name {
      assert VNode(hashing.place(name)[0], name) in shared.ring;
    }
  }
}
