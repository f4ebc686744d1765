/**
 The consistent hash ring of the seed peers and the clockwise walk over it.

 The ring library itself is outside the repository. What the selector relies on is stated
 here: a ring is the ascending sequence of the virtual nodes of its hosts, a host has at
 least one virtual node, no two virtual nodes share a position, the positions of a host
 depend on its name alone, and a walk clockwise answers at least as many nodes as asked
 for, unless the ring has fewer. A small ring that meets this is built at the end.
 */
module HashRing {
  import opened Sequences

  datatype VNode = VNode(position: nat, name: string)

  type Ring = seq<VNode>

  /**
   The ring library: where the virtual nodes of a host name land, where a task lands, and
   what it answers for a window of a ring clockwise from a position.
   */
  datatype Hashing = Hashing(
    place: string -> seq<nat>, locate: string -> nat, walk: (Ring, nat, nat) -> seq<VNode>)

  /** The placement assumption, for the host names in use. */
  ghost predicate Placed(hashing: Hashing, names: set<string>) {
    && (forall n | n in names :: hashing.place(n) != [])
    && (forall n, i, j | n in names && 0 <= i < j < |hashing.place(n)| :: hashing.place(n)[i] != hashing.place(n)[j])
    && (forall n, m, p | n in names && m in names && p in hashing.place(n) && p in hashing.place(m) :: n == m)
  }

  ghost predicate Ascending(ring: Ring) {
    forall i, j | 0 <= i < j < |ring| :: ring[i].position < ring[j].position
  }

  /** `ring` is the ring of exactly the hosts `names`. */
  ghost predicate IsRing(ring: Ring, hashing: Hashing, names: set<string>) {
    && Ascending(ring)
    && (forall v :: v in ring <==> v.name in names && v.position in hashing.place(v.name))
  }

  // ---------- A ring is determined by its host names ----------

  lemma {:induction false} AscendingUnique(a: Ring, b: Ring)
    requires Ascending(a) && Ascending(b)
    requires forall v :: v in a <==> v in b
    ensures a == b
  {
    assert a != [] ==> a[0] in b;
    assert b != [] ==> b[0] in a;
    if a != [] {
      assert a[0] == b[0];
      forall v ensures v in a[1..] <==> v in b[1..] {
        if v in a[1..] { assert v in a; assert v != a[0]; }
        if v in b[1..] { assert v in b; assert v != b[0]; }
      }
      AscendingUnique(a[1..], b[1..]);
    }
  }

  lemma RingUnique(a: Ring, b: Ring, hashing: Hashing, names: set<string>)
    requires IsRing(a, hashing, names) && IsRing(b, hashing, names)
    ensures a == b
  {
    AscendingUnique(a, b);
  }

  // ---------- The clockwise walk ----------

  /** The number of leading virtual nodes before `point`. */
  function Start(ring: Ring, point: nat): (i: nat)
    ensures i <= |ring|
    ensures forall k | 0 <= k < i :: ring[k].position < point
    ensures i < |ring| ==> point <= ring[i].position
  {
    if ring == [] || point <= ring[0].position then 0 else 1 + Start(ring[1..], point)
  }

  /** The whole ring read clockwise from `point`, wrapping around once. */
  function Clockwise(ring: Ring, point: nat): Ring {
    ring[Start(ring, point)..] + ring[..Start(ring, point)]
  }

  /** An answer to a window: some walk clockwise, as long as the window or the ring. */
  ghost predicate Answers(ring: Ring, point: nat, window: nat, vnodes: seq<VNode>) {
    vnodes <= Clockwise(ring, point) && |vnodes| >= Min(window, |ring|)
  }

  /** The walk assumption. */
  ghost predicate Walks(hashing: Hashing) {
    forall ring: Ring, point: nat, window: nat :: Answers(ring, point, window, hashing.walk(ring, point, window))
  }

  /** The virtual nodes of the hosts in `kept`. */
  function KeepNodes(vnodes: seq<VNode>, kept: set<string>): seq<VNode> {
    if vnodes == [] then [] else
      var rest := KeepNodes(vnodes[..|vnodes| - 1], kept);
      var last := vnodes[|vnodes| - 1];
      if last.name in kept then rest + [last] else rest
  }

  /** The distinct host names in order of their first virtual node. */
  function Firsts(vnodes: seq<VNode>): seq<string> {
    if vnodes == [] then [] else
      var rest := Firsts(vnodes[..|vnodes| - 1]);
      var name := vnodes[|vnodes| - 1].name;
      if name in rest then rest else rest + [name]
  }

  /** The names in `kept`, in their order. */
  function Keep(names: seq<string>, kept: set<string>): seq<string> {
    if names == [] then [] else
      var rest := Keep(names[..|names| - 1], kept);
      var last := names[|names| - 1];
      if last in kept then rest + [last] else rest
  }

  function Min(a: nat, b: nat): nat {
    if a <= b then a else b
  }

  /** At most the first `n` elements. */
  function Take<T>(s: seq<T>, n: nat): seq<T> {
    s[..Min(n, |s|)]
  }

  // ---------- Laws of the walk ----------

  lemma {:induction false} FirstsElements(vnodes: seq<VNode>)
    ensures Distinct(Firsts(vnodes))
    ensures forall name :: name in Firsts(vnodes) <==> exists v :: v in vnodes && v.name == name
  {
    if vnodes != [] {
      var init, last := vnodes[..|vnodes| - 1], vnodes[|vnodes| - 1];
      FirstsElements(init);
      assert vnodes == init + [last];
      assert last in vnodes;
      assert forall v :: v in vnodes <==> v in init || v == last;
    }
  }

  lemma {:induction false} FirstsPrefix(p: seq<VNode>, vnodes: seq<VNode>)
    requires p <= vnodes
    ensures Firsts(p) <= Firsts(vnodes)
  {
    if |p| == |vnodes| {
      assert p == vnodes;
    } else {
      assert p <= vnodes[..|vnodes| - 1];
      FirstsPrefix(p, vnodes[..|vnodes| - 1]);
    }
  }

  lemma {:induction false} KeepElements(names: seq<string>, kept: set<string>)
    ensures forall n :: n in Keep(names, kept) <==> n in names && n in kept
    ensures Distinct(names) ==> Distinct(Keep(names, kept))
    ensures |Keep(names, kept)| <= |names|
  {
    if names != [] {
      var init, last := names[..|names| - 1], names[|names| - 1];
      KeepElements(init, kept);
      assert names == init + [last];
      DistinctAppend(init, last);
      DistinctAppend(Keep(init, kept), last);
    }
  }

  lemma {:induction false} KeepPrefix(p: seq<string>, names: seq<string>, kept: set<string>)
    requires p <= names
    ensures Keep(p, kept) <= Keep(names, kept)
  {
    if |p| == |names| {
      assert p == names;
    } else {
      KeepPrefix(p, names[..|names| - 1], kept);
    }
  }

  lemma {:induction false} KeepAll(names: seq<string>, kept: set<string>)
    requires forall n | n in names :: n in kept
    ensures Keep(names, kept) == names
  {
    if names != [] {
      KeepAll(names[..|names| - 1], kept);
    }
  }

  /** Dropping elements loses at most the distinct names dropped. */
  lemma {:induction false} KeepLength(names: seq<string>, kept: set<string>, lost: set<string>)
    requires Distinct(names)
    requires forall n | n in names :: n in kept || n in lost
    ensures |names| - |lost| <= |Keep(names, kept)|
  {
    if names != [] {
      var init, last := names[..|names| - 1], names[|names| - 1];
      if last in kept {
        KeepLength(init, kept, lost);
      } else {
        assert last !in init;
        KeepLength(init, kept, lost - {last});
      }
    }
  }

  lemma {:induction false} KeepNodesElements(vnodes: seq<VNode>, kept: set<string>)
    ensures forall v :: v in KeepNodes(vnodes, kept) <==> v in vnodes && v.name in kept
    ensures Ascending(vnodes) ==> Ascending(KeepNodes(vnodes, kept))
  {
    if vnodes != [] {
      KeepNodesElements(vnodes[..|vnodes| - 1], kept);
      assert vnodes == vnodes[..|vnodes| - 1] + [vnodes[|vnodes| - 1]];
    }
  }

  lemma {:induction false} KeepNodesConcat(a: seq<VNode>, b: seq<VNode>, kept: set<string>)
    ensures KeepNodes(a + b, kept) == KeepNodes(a, kept) + KeepNodes(b, kept)
  {
    if b == [] {
      assert a + b == a;
    } else {
      assert (a + b)[..|a + b| - 1] == a + b[..|b| - 1];
      KeepNodesConcat(a, b[..|b| - 1], kept);
    }
  }

  /** Dropping hosts from the nodes, then taking first names, is dropping them from the names. */
  lemma {:induction false} FirstsKeep(vnodes: seq<VNode>, kept: set<string>)
    ensures Firsts(KeepNodes(vnodes, kept)) == Keep(Firsts(vnodes), kept)
  {
    if vnodes != [] {
      var init := vnodes[..|vnodes| - 1];
      FirstsKeep(init, kept);
      KeepElements(Firsts(init), kept);
    }
  }

  lemma {:induction false} StartAtSplit(a: Ring, b: Ring, point: nat)
    requires forall v | v in a :: v.position < point
    requires forall v | v in b :: point <= v.position
    ensures Start(a + b, point) == |a|
  {
    if a == [] {
      assert a + b == b;
    } else {
      assert (a + b)[1..] == a[1..] + b;
      StartAtSplit(a[1..], b, point);
    }
  }

  lemma StartAfterKeep(ring: Ring, point: nat, kept: set<string>)
    requires Ascending(ring)
    ensures
      var i := Start(ring, point);
      Start(KeepNodes(ring[..i], kept) + KeepNodes(ring[i..], kept), point) == |KeepNodes(ring[..i], kept)|
  {
    var i := Start(ring, point);
    KeepNodesElements(ring[..i], kept);
    KeepNodesElements(ring[i..], kept);
    assert forall v | v in ring[i..] :: point <= v.position;
    StartAtSplit(KeepNodes(ring[..i], kept), KeepNodes(ring[i..], kept), point);
  }

  /** Dropping hosts from the ring drops them from every walk and changes nothing else. */
  lemma ClockwiseKeep(ring: Ring, point: nat, kept: set<string>)
    requires Ascending(ring)
    ensures Clockwise(KeepNodes(ring, kept), point) == KeepNodes(Clockwise(ring, point), kept)
  {
    var i := Start(ring, point);
    var a, b := ring[..i], ring[i..];
    assert ring == a + b;
    KeepNodesConcat(a, b, kept);
    KeepNodesConcat(b, a, kept);
    StartAfterKeep(ring, point, kept);
    var a', b' := KeepNodes(a, kept), KeepNodes(b, kept);
    assert (a' + b')[|a'|..] == b' && (a' + b')[..|a'|] == a';
  }

  lemma ClockwiseElements(ring: Ring, point: nat)
    ensures |Clockwise(ring, point)| == |ring|
    ensures forall v :: v in Clockwise(ring, point) <==> v in ring
  {
    var i := Start(ring, point);
    assert ring == ring[..i] + ring[i..];
  }

  /** The ring of fewer hosts is the ring of all with the others dropped. */
  lemma RingKeep(ring: Ring, hashing: Hashing, names: set<string>, fewer: set<string>)
    requires IsRing(ring, hashing, names) && fewer <= names
    ensures IsRing(KeepNodes(ring, fewer), hashing, fewer)
  {
    KeepNodesElements(ring, fewer);
  }

  /** A walk over the whole ring meets every host, each once. */
  lemma WalkMeetsEveryHost(ring: Ring, hashing: Hashing, names: set<string>, point: nat)
    requires IsRing(ring, hashing, names) && Placed(hashing, names)
    ensures Distinct(Firsts(Clockwise(ring, point)))
    ensures forall n :: n in Firsts(Clockwise(ring, point)) <==> n in names
    ensures |Firsts(Clockwise(ring, point))| == |names|
  {
    var walk := Clockwise(ring, point);
    FirstsElements(walk);
    ClockwiseElements(ring, point);
    forall n ensures n in Firsts(walk) <==> n in names {
      if n in names {
        assert VNode(hashing.place(n)[0], n) in ring;
      }
    }
    DistinctSize(Firsts(walk), names);
  }

  /** A host has at least one virtual node, so the ring is at least as long as the hosts. */
  lemma RingCoversHosts(ring: Ring, hashing: Hashing, names: set<string>)
    requires IsRing(ring, hashing, names) && Placed(hashing, names)
    ensures |names| <= |ring|
  {
    WalkMeetsEveryHost(ring, hashing, names, 0);
    ClockwiseElements(ring, 0);
    FirstsShorter(Clockwise(ring, 0));
  }

  lemma {:induction false} FirstsShorter(vnodes: seq<VNode>)
    ensures |Firsts(vnodes)| <= |vnodes|
  {
    if vnodes != [] {
      FirstsShorter(vnodes[..|vnodes| - 1]);
    }
  }

  // ---------- A ring that meets the contract ----------

  function Insert(ring: Ring, v: VNode): Ring {
    if ring == [] || v.position < ring[0].position then [v] + ring else [ring[0]] + Insert(ring[1..], v)
  }

  lemma {:induction false} InsertAscending(ring: Ring, v: VNode)
    requires Ascending(ring)
    requires forall w | w in ring :: w.position != v.position
    ensures Ascending(Insert(ring, v))
    ensures forall w :: w in Insert(ring, v) <==> w in ring || w == v
  {
    if ring == [] || v.position < ring[0].position {
    } else {
      assert ring == [ring[0]] + ring[1..];
      assert ring[0] in ring;
      InsertAscending(ring[1..], v);
      var rest := Insert(ring[1..], v);
      assert forall w | w in rest :: ring[0].position < w.position;
      assert forall j | 0 <= j < |rest| :: rest[j] in rest;
    }
  }

  function AddPositions(ring: Ring, name: string, positions: seq<nat>): Ring {
    if positions == [] then ring
    else Insert(AddPositions(ring, name, positions[..|positions| - 1]), VNode(positions[|positions| - 1], name))
  }

  /** Adds every virtual node of the host `name`. */
  function Add(ring: Ring, hashing: Hashing, name: string): Ring {
    AddPositions(ring, name, hashing.place(name))
  }

  lemma {:induction false} AddPositionsElements(ring: Ring, name: string, positions: seq<nat>)
    requires Ascending(ring) && Distinct(positions)
    requires forall v | v in ring :: v.position !in positions
    ensures Ascending(AddPositions(ring, name, positions))
    ensures forall v :: v in AddPositions(ring, name, positions) <==> v in ring || (v.name == name && v.position in positions)
  {
    if positions != [] {
      var init, last := positions[..|positions| - 1], positions[|positions| - 1];
      assert positions == init + [last];
      AddPositionsElements(ring, name, init);
      assert last !in init && last in positions;
      InsertAscending(AddPositions(ring, name, init), VNode(last, name));
    }
  }

  /** Adding a host keeps the ring the ring of its hosts. */
  lemma AddKeepsRing(ring: Ring, hashing: Hashing, names: set<string>, name: string)
    requires IsRing(ring, hashing, names) && name !in names
    requires Placed(hashing, names + {name})
    ensures IsRing(Add(ring, hashing, name), hashing, names + {name})
  {
    assert Distinct(hashing.place(name)) by {
      assert name in names + {name};
    }
    forall v | v in ring ensures v.position !in hashing.place(name) {
      assert v.name in names + {name} && name in names + {name};
    }
    AddPositionsElements(ring, name, hashing.place(name));
  }

  lemma {:induction false} RingExists(hashing: Hashing, names: set<string>)
    requires Placed(hashing, names)
    ensures exists ring :: IsRing(ring, hashing, names)
  {
    if names == {} {
      assert IsRing([], hashing, names);
    } else {
      var name :| name in names;
      RingExists(hashing, names - {name});
      var ring :| IsRing(ring, hashing, names - {name});
      assert names - {name} + {name} == names;
      AddKeepsRing(ring, hashing, names - {name}, name);
    }
  }

  /** The ring of the hosts `names`. */
  ghost function RingOf(hashing: Hashing, names: set<string>): (ring: Ring)
    requires Placed(hashing, names)
    ensures IsRing(ring, hashing, names)
  {
    RingExists(hashing, names);
    var ring :| IsRing(ring, hashing, names);
    ring
  }

  /** The walk of exactly the window meets the assumption, and so does one of a node more. */
  lemma WindowsAnswer(ring: Ring, point: nat, window: nat, more: nat)
    ensures Answers(ring, point, window, Take(Clockwise(ring, point), window + more))
  {
    ClockwiseElements(ring, point);
  }
}
