/**
 Which hosts the replicas of a task are, told from the positions of the hosts alone: going
 clockwise from the task and wrapping around once, the ones met first.
 */
module Nearest {
  import opened HashRing
  import opened SeedPeers
  import opened Sequences

  /** Going clockwise from `point`, `p` is met before `q`. */
  predicate Sooner(point: nat, p: nat, q: nat) {
    if point <= p then q < point || p < q else p < q < point
  }

  /** Some position of `m` is met before every position of `n`. */
  ghost predicate Nearer(hashing: Hashing, point: nat, m: string, n: string) {
    exists p :: p in hashing.place(m) && SoonerThanAll(point, p, hashing.place(n))
  }

  ghost predicate SoonerThanAll(point: nat, p: nat, positions: seq<nat>) {
    forall q | q in positions :: Sooner(point, p, q)
  }

  lemma WalkIsClockwise(ring: Ring, point: nat, a: nat, b: nat)
    requires Ascending(ring) && a < b < |ring|
    ensures |Clockwise(ring, point)| == |ring|
    ensures Sooner(point, Clockwise(ring, point)[a].position, Clockwise(ring, point)[b].position)
  {
    var i := Start(ring, point);
    var front := |ring| - i;
    var walk := Clockwise(ring, point);
    assert walk[a] == if a < front then ring[i + a] else ring[a - front];
    assert walk[b] == if b < front then ring[i + b] else ring[b - front];
    assert forall k | i < k < |ring| :: ring[i].position < ring[k].position;
  }

  /** Of two names, the first node of the earlier comes before all nodes of the later. */
  lemma {:induction false} FirstsInOrder(vnodes: seq<VNode>, i: nat, j: nat) returns (a: nat)
    requires i < j < |Firsts(vnodes)|
    ensures a < |vnodes| && vnodes[a].name == Firsts(vnodes)[i]
    ensures forall b | 0 <= b < |vnodes| && vnodes[b].name == Firsts(vnodes)[j] :: a < b
  {
    var n := |vnodes| - 1;
    var init := vnodes[..n];
    var rest := Firsts(init);
    if j < |rest| {
      a := FirstsInOrder(init, i, j);
      assert forall b | 0 <= b < n :: vnodes[b] == init[b];
    } else {
      FirstsElements(init);
      assert rest[i] in rest;
      var v :| v in init && v.name == rest[i];
      a :| 0 <= a < n && init[a] == v;
      forall b | 0 <= b < n ensures vnodes[b].name != Firsts(vnodes)[j] {
        assert init[b] in init;
      }
    }
  }

  lemma EarlierIsNearer(hosts: Hosts, ring: Ring, hashing: Hashing, point: nat, i: nat, j: nat)
    requires InStep(hosts, ring, hashing) && i < j < |Order(hosts, ring, point)|
    ensures Nearer(hashing, point, Order(hosts, ring, point)[i], Order(hosts, ring, point)[j])
  {
    var order, walk := Order(hosts, ring, point), Clockwise(ring, point);
    ReplicasAreFound(hosts, ring, hashing, point, 0);
    ClockwiseElements(ring, point);
    var a := FirstsInOrder(walk, i, j);
    assert walk[a] in ring;
    forall q | q in hashing.place(order[j]) ensures Sooner(point, walk[a].position, q) {
      WalkMeetsEveryHost(ring, hashing, hosts.Keys, point);
      assert order[j] in order;
      assert VNode(q, order[j]) in ring;
      var b :| 0 <= b < |walk| && walk[b] == VNode(q, order[j]);
      WalkIsClockwise(ring, point, a, b);
    }
    assert SoonerThanAll(point, walk[a].position, hashing.place(order[j]));
  }

  lemma NearerIsStrict(hashing: Hashing, point: nat, m: string, n: string)
    ensures Nearer(hashing, point, m, n) ==> !Nearer(hashing, point, n, m)
  {
    if Nearer(hashing, point, m, n) {
      var p :| p in hashing.place(m) && SoonerThanAll(point, p, hashing.place(n));
      forall q | q in hashing.place(n) ensures !SoonerThanAll(point, q, hashing.place(m)) {
        assert Sooner(point, p, q) && !Sooner(point, q, p);
      }
    }
  }

  /** The order of the hosts for a task is exactly that of their nearest positions. */
  lemma OrderIsNearness(hosts: Hosts, ring: Ring, hashing: Hashing, point: nat, i: nat, j: nat)
    requires InStep(hosts, ring, hashing)
    requires i < |Order(hosts, ring, point)| && j < |Order(hosts, ring, point)|
    ensures i < j <==> Nearer(hashing, point, Order(hosts, ring, point)[i], Order(hosts, ring, point)[j])
  {
    if i < j {
      EarlierIsNearer(hosts, ring, hashing, point, i, j);
    } else {
      if j < i {
        EarlierIsNearer(hosts, ring, hashing, point, j, i);
      }
      NearerIsStrict(hashing, point, Order(hosts, ring, point)[i], Order(hosts, ring, point)[j]);
    }
  }

  /** The replicas are the beginning of an order of all hosts. */
  lemma ReplicasBeginOrder(hosts: Hosts, ring: Ring, hashing: Hashing, point: nat, replicas: nat)
    requires InStep(hosts, ring, hashing)
    ensures
      var names, order := Replicas(hosts, ring, point, replicas), Order(hosts, ring, point);
      && |names| == (if replicas < |hosts| then replicas else |hosts|) <= |order|
      && (forall i | 0 <= i < |names| :: names[i] == order[i])
      && (forall n | n in hosts :: n in order)
  {
    ReplicasAreFound(hosts, ring, hashing, point, replicas);
    WalkMeetsEveryHost(ring, hashing, hosts.Keys, point);
  }

  lemma OthersAreFarther(hosts: Hosts, ring: Ring, hashing: Hashing, point: nat, replicas: nat, i: nat, n: string)
    requires InStep(hosts, ring, hashing) && n in hosts
    requires i < |Replicas(hosts, ring, point, replicas)| && n !in Replicas(hosts, ring, point, replicas)
    ensures Nearer(hashing, point, Replicas(hosts, ring, point, replicas)[i], n)
  {
    var names, order := Replicas(hosts, ring, point, replicas), Order(hosts, ring, point);
    ReplicasBeginOrder(hosts, ring, hashing, point, replicas);
    assert forall k | 0 <= k < |names| :: order[k] == names[k] && names[k] in names;
    var j :| 0 <= j < |order| && order[j] == n;
    EarlierIsNearer(hosts, ring, hashing, point, i, j);
  }

  /** The replicas of a task are the hosts nearest to it clockwise, nearest first, as many as asked for or all. */
  lemma ReplicasAreNearest(hosts: Hosts, ring: Ring, hashing: Hashing, point: nat, replicas: nat)
    requires InStep(hosts, ring, hashing)
    ensures
      var names := Replicas(hosts, ring, point, replicas);
      && |names| == (if replicas < |hosts| then replicas else |hosts|)
      && (forall i | 0 <= i < |names| :: names[i] in hosts)
      && (forall i, j | 0 <= i < j < |names| :: names[i] != names[j] && Nearer(hashing, point, names[i], names[j]))
      && (forall i, n | 0 <= i < |names| && n in hosts && n !in names :: Nearer(hashing, point, names[i], n))
  {
    var names := Replicas(hosts, ring, point, replicas);
    ReplicasBeginOrder(hosts, ring, hashing, point, replicas);
    forall i, j | 0 <= i < j < |names| ensures Nearer(hashing, point, names[i], names[j]) {
      EarlierIsNearer(hosts, ring, hashing, point, i, j);
    }
    forall i, n | 0 <= i < |names| && n in hosts && n !in names ensures Nearer(hashing, point, names[i], n) {
      OthersAreFarther(hosts, ring, hashing, point, replicas, i, n);
    }
  }

  /** A single replica is the host of the first node at or after the task, and of the first node of all when none is. */
  lemma OneReplica(hosts: Hosts, ring: Ring, hashing: Hashing, point: nat, n: nat)
    requires InStep(hosts, ring, hashing) && n < |ring|
    requires
      || (point <= ring[n].position && forall k | 0 <= k < n :: ring[k].position < point)
      || (n == 0 && forall k | 0 <= k < |ring| :: ring[k].position < point)
    ensures Replicas(hosts, ring, point, 1) == [ring[n].name]
  {
    var names, name := Replicas(hosts, ring, point, 1), ring[n].name;
    ReplicasAreNearest(hosts, ring, hashing, point, 1);
    assert ring[n] in ring;
    assert name in hosts.Keys && |hosts.Keys| == |hosts|;
    forall p | p in hashing.place(names[0]) && names[0] != name ensures !SoonerThanAll(point, p, hashing.place(name)) {
      assert names[0] in hosts.Keys;
      assert VNode(p, names[0]) in ring;
      var k :| 0 <= k < |ring| && ring[k] == VNode(p, names[0]);
      assert !Sooner(point, ring[k].position, ring[n].position);
    }
    assert names[0] == name || !Nearer(hashing, point, names[0], name);
  }
}
