/** Stable sorting of query pairs by key, and what determines the sorted list. */
module KeyOrder {
  import opened Bytes
  import opened FormUrlencoded

  /** Byte strings in dictionary order. */
  predicate Leq(a: bytes, b: bytes) {
    a == [] || (b != [] && (a[0] < b[0] || (a[0] == b[0] && Leq(a[1..], b[1..]))))
  }

  lemma {:induction false} LeqTotal(a: bytes, b: bytes)
    ensures Leq(a, b) || Leq(b, a)
    ensures Leq(a, b) && Leq(b, a) ==> a == b
  {
    if a != [] && b != [] && a[0] == b[0] {
      LeqTotal(a[1..], b[1..]);
      assert a == [a[0]] + a[1..] && b == [b[0]] + b[1..];
    }
  }

  lemma {:induction false} LeqTransitive(a: bytes, b: bytes, c: bytes)
    requires Leq(a, b) && Leq(b, c)
    ensures Leq(a, c)
  {
    if a != [] && a[0] == b[0] == c[0] {
      LeqTransitive(a[1..], b[1..], c[1..]);
    }
  }

  /** `a` is less where it first differs from `b`. */
  ghost predicate LessAt(a: bytes, b: bytes, i: nat) {
    i < |a| && i < |b| && a[i] < b[i] && forall k | 0 <= k < i :: a[k] == b[k]
  }

  /** The order is that of a dictionary: a prefix comes first, else the first difference decides. */
  lemma {:induction false} LeqIsDictionary(a: bytes, b: bytes)
    ensures Leq(a, b) <==> a <= b || exists i: nat :: LessAt(a, b, i)
  {
    if a != [] && b != [] {
      LeqIsDictionary(a[1..], b[1..]);
      assert a[0] < b[0] ==> LessAt(a, b, 0);
      forall i: nat | LessAt(a, b, i) && i > 0 ensures a[0] == b[0] && LessAt(a[1..], b[1..], i - 1) {
      }
      forall i: nat | a[0] == b[0] && LessAt(a[1..], b[1..], i) ensures LessAt(a, b, i + 1) {
        assert forall k | 1 <= k < i + 1 :: a[k] == a[1..][k - 1] && b[k] == b[1..][k - 1];
      }
      assert a <= b <==> a[0] == b[0] && a[1..] <= b[1..];
    }
  }

  ghost predicate Sorted(pairs: seq<Pair>) {
    forall i, j | 0 <= i < j < |pairs| :: Leq(pairs[i].key, pairs[j].key)
  }

  /** The values of `key`, in their order. */
  function Values(pairs: seq<Pair>, key: bytes): seq<bytes> {
    if pairs == [] then []
    else if pairs[0].key == key then [pairs[0].value] + Values(pairs[1..], key)
    else Values(pairs[1..], key)
  }

  lemma {:induction false} ValuesConcat(a: seq<Pair>, b: seq<Pair>, key: bytes)
    ensures Values(a + b, key) == Values(a, key) + Values(b, key)
  {
    if a == [] {
      assert a + b == b;
    } else {
      assert (a + b)[1..] == a[1..] + b;
      ValuesConcat(a[1..], b, key);
    }
  }

  lemma {:induction false} ValuesFound(pairs: seq<Pair>, key: bytes)
    ensures Values(pairs, key) != [] <==> exists i :: 0 <= i < |pairs| && pairs[i].key == key
  {
    if pairs != [] {
      ValuesFound(pairs[1..], key);
      assert forall i | 0 <= i < |pairs[1..]| :: pairs[1..][i] == pairs[i + 1];
      assert Values(pairs[1..], key) != [] ==> exists i :: 0 <= i < |pairs| && pairs[i].key == key by {
        if Values(pairs[1..], key) != [] {
          var i :| 0 <= i < |pairs[1..]| && pairs[1..][i].key == key;
          assert pairs[i + 1].key == key;
        }
      }
    }
  }

  ghost predicate SameValues(a: seq<Pair>, b: seq<Pair>) {
    forall key :: Values(a, key) == Values(b, key)
  }

  /** Sorted pairs are determined by the values of each key: there is one stable sort. */
  lemma {:induction false} SortedUnique(a: seq<Pair>, b: seq<Pair>)
    requires Sorted(a) && Sorted(b) && SameValues(a, b)
    ensures a == b
  {
    if a == [] || b == [] {
      SameValuesEmpty(a, b);
    } else {
      var x, y := a[0], b[0];
      ValuesFound(a, y.key);
      ValuesFound(b, x.key);
      assert Leq(y.key, x.key) by {
        assert Values(a, x.key) != [];
        var i :| 0 <= i < |b| && b[i].key == x.key;
        LeqTotal(y.key, y.key);
      }
      assert Leq(x.key, y.key) by {
        assert Values(b, y.key) != [];
        var i :| 0 <= i < |a| && a[i].key == y.key;
        LeqTotal(x.key, x.key);
      }
      LeqTotal(x.key, y.key);
      assert Values(a, x.key)[0] == Values(b, x.key)[0];
      forall key ensures Values(a[1..], key) == Values(b[1..], key) {
        assert Values(a, key) == Values(b, key);
        if key == x.key {
          assert Values(a, key)[1..] == Values(b, key)[1..];
        }
      }
      SortedUnique(a[1..], b[1..]);
      assert a == [x] + a[1..] && b == [y] + b[1..];
    }
  }

  lemma SameValuesEmpty(a: seq<Pair>, b: seq<Pair>)
    requires SameValues(a, b)
    ensures a == [] <==> b == []
  {
    if a != [] {
      assert Values(a, a[0].key) == Values(b, a[0].key);
    }
    if b != [] {
      assert Values(b, b[0].key) == Values(a, b[0].key);
    }
  }

  // ---------- A stable sort ----------

  function Insert(pair: Pair, pairs: seq<Pair>): seq<Pair> {
    if pairs == [] || Leq(pair.key, pairs[0].key) then [pair] + pairs else [pairs[0]] + Insert(pair, pairs[1..])
  }

  function StableSort(pairs: seq<Pair>): seq<Pair> {
    if pairs == [] then [] else Insert(pairs[0], StableSort(pairs[1..]))
  }

  lemma {:induction false} InsertSorted(pair: Pair, pairs: seq<Pair>)
    requires Sorted(pairs)
    ensures Sorted(Insert(pair, pairs))
    ensures forall p :: p in Insert(pair, pairs) <==> p == pair || p in pairs
    ensures forall key :: Values(Insert(pair, pairs), key) == (if key == pair.key then [pair.value] else []) + Values(pairs, key)
  {
    if pairs == [] || Leq(pair.key, pairs[0].key) {
      forall i | 0 <= i < |pairs| ensures Leq(pair.key, pairs[i].key) {
        if i > 0 {
          LeqTransitive(pair.key, pairs[0].key, pairs[i].key);
        }
      }
      assert ([pair] + pairs)[1..] == pairs;
    } else {
      var rest := Insert(pair, pairs[1..]);
      InsertSorted(pair, pairs[1..]);
      LeqTotal(pair.key, pairs[0].key);
      assert ([pairs[0]] + rest)[1..] == rest;
      LeqTotal(pair.key, pair.key);
      assert pair.key != pairs[0].key;
      forall i | 0 <= i < |rest| ensures Leq(pairs[0].key, rest[i].key) {
        assert rest[i] in rest;
        if rest[i] != pair {
          var j :| 0 <= j < |pairs[1..]| && pairs[1..][j] == rest[i];
          assert pairs[j + 1] == rest[i];
        }
      }
    }
  }

  /** Sorting keeps the pairs, and keeps the values of each key in their order. */
  lemma {:induction false} StableSortIsStable(pairs: seq<Pair>)
    ensures Sorted(StableSort(pairs))
    ensures SameValues(StableSort(pairs), pairs)
    ensures forall p :: p in StableSort(pairs) <==> p in pairs
  {
    if pairs != [] {
      StableSortIsStable(pairs[1..]);
      InsertSorted(pairs[0], StableSort(pairs[1..]));
    }
  }
}
