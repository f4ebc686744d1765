/**
 What a change of the seed peers does to the tasks. The hosts common to both memberships
 keep their order for every task, so a task loses at most as many of its replicas as hosts
 join or leave.
 */
module Disruption {
  import opened HashRing
  import opened SeedPeers
  import opened Sequences

  /** The order of the common hosts is the same before and after. */
  lemma CommonOrder(hosts: Hosts, ring: Ring, hashing: Hashing, point: nat, common: set<string>)
    requires InStep(hosts, ring, hashing) && common <= hosts.Keys
    ensures Keep(Order(hosts, ring, point), common) == Firsts(Clockwise(RingOf(hashing, common), point))
  {
    KeepAll(Firsts(Clockwise(ring, point)), hosts.Keys) by {
      WalkMeetsEveryHost(ring, hashing, hosts.Keys, point);
    }
    RingKeep(ring, hashing, hosts.Keys, common);
    RingUnique(KeepNodes(ring, common), RingOf(hashing, common), hashing, common);
    ClockwiseKeep(ring, point, common);
    FirstsKeep(Clockwise(ring, point), common);
  }

  /** The replicas among the common hosts are first in the common order, short of the replicas lost. */
  lemma CommonReplicas(hosts: Hosts, ring: Ring, hashing: Hashing, point: nat, replicas: nat, common: set<string>)
    requires InStep(hosts, ring, hashing) && common <= hosts.Keys
    ensures
      var names := Replicas(hosts, ring, point, replicas);
      && Keep(names, common) <= Firsts(Clockwise(RingOf(hashing, common), point))
      && |names| - |hosts.Keys - common| <= |Keep(names, common)|
      && |names| == Min(replicas, |hosts.Keys|)
  {
    ReplicasAreFound(hosts, ring, hashing, point, replicas);
    assert |hosts| == |hosts.Keys|;
    var names := Replicas(hosts, ring, point, replicas);
    CommonOrder(hosts, ring, hashing, point, common);
    KeepPrefix(names, Order(hosts, ring, point), common);
    KeepLength(names, common, hosts.Keys - common);
  }

  /**
   For any two memberships, the replicas that are members of both are, before and after,
   prefixes of one list; each side misses at most the hosts only it has.
   */
  lemma MembershipChange(before: Hosts, after: Hosts, ringBefore: Ring, ringAfter: Ring, hashing: Hashing, point: nat, replicas: nat)
    requires InStep(before, ringBefore, hashing) && InStep(after, ringAfter, hashing)
    ensures
      var common := before.Keys * after.Keys;
      var old', new' := Replicas(before, ringBefore, point, replicas), Replicas(after, ringAfter, point, replicas);
      && (Keep(old', common) <= Keep(new', common) || Keep(new', common) <= Keep(old', common))
      && |old'| - |before.Keys - common| <= |Keep(old', common)|
      && |new'| - |after.Keys - common| <= |Keep(new', common)|
  {
    var common := before.Keys * after.Keys;
    CommonReplicas(before, ringBefore, hashing, point, replicas, common);
    CommonReplicas(after, ringAfter, hashing, point, replicas, common);
  }

  /**
   When one host joins, the other new replicas of a task are its first old ones, at most
   the last old one missing; read backwards, the same holds when one host leaves.
   */
  lemma OneHostJoins(before: Hosts, after: Hosts, ringBefore: Ring, ringAfter: Ring, hashing: Hashing, point: nat, replicas: nat, host: string)
    requires InStep(before, ringBefore, hashing) && InStep(after, ringAfter, hashing)
    requires host !in before && after.Keys == before.Keys + {host}
    ensures
      var old', new' := Replicas(before, ringBefore, point, replicas), Replicas(after, ringAfter, point, replicas);
      var others := Keep(new', before.Keys);
      && others <= old'
      && |old'| - 1 <= |others|
      && (host !in new' ==> new' == old')
  {
    var old', new' := Replicas(before, ringBefore, point, replicas), Replicas(after, ringAfter, point, replicas);
    CommonReplicas(before, ringBefore, hashing, point, replicas, before.Keys);
    CommonReplicas(after, ringAfter, hashing, point, replicas, before.Keys);
    KeepAll(old', before.Keys);
    JoinedReplicas(old', new', Firsts(Clockwise(RingOf(hashing, before.Keys), point)), before.Keys, host, replicas);
  }

  lemma JoinedReplicas(old': seq<string>, new': seq<string>, order: seq<string>, kept: set<string>, host: string, replicas: nat)
    requires host !in kept && Distinct(new')
    requires forall n | n in new' :: n in kept || n == host
    requires |old'| == Min(replicas, |kept|) && |new'| == Min(replicas, |kept| + 1)
    requires old' <= order && Keep(new', kept) <= order
    ensures Keep(new', kept) <= old' && |old'| - 1 <= |Keep(new', kept)|
    ensures host !in new' ==> new' == old'
  {
    OthersFit(new', kept);
    KeepLength(new', kept, {host});
    KeepElements(new', kept);
    if host !in new' {
      KeepAll(new', kept);
    }
  }

  lemma OthersFit(names: seq<string>, kept: set<string>)
    requires Distinct(names)
    ensures |Keep(names, kept)| <= |kept|
  {
    KeepElements(names, kept);
    var common := set n | n in Keep(names, kept);
    DistinctSize(Keep(names, kept), common);
    SubsetSize(common, kept);
  }

  lemma {:induction false} SubsetSize(a: set<string>, b: set<string>)
    requires a <= b
    ensures |a| <= |b|
  {
    if a != {} {
      var x :| x in a;
      SubsetSize(a - {x}, b - {x});
    }
  }
}
