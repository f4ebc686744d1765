/**
 The canonical form of a query: parsed, filtered, sorted by key and escaped again, so that
 two downloads differing only in filtered parameters, in the order of keys or in escaping
 share one task id.
 */
module CanonicalQuery {
  import opened Results
  import opened Bytes
  import opened FormUrlencoded
  import opened KeyOrder

  /** The pairs whose key no filter names. */
  function Unfiltered(pairs: seq<Pair>, filters: seq<bytes>): seq<Pair> {
    if pairs == [] then []
    else if pairs[0].key in filters then Unfiltered(pairs[1..], filters)
    else [pairs[0]] + Unfiltered(pairs[1..], filters)
  }

  function PairsOf(query: Option<bytes>, lossy: bytes -> bytes): seq<Pair> {
    Parse(if query.Some? then query.value else [], lossy)
  }

  function Canonical(query: Option<bytes>, filters: seq<bytes>, lossy: bytes -> bytes): Option<bytes> {
    var pairs := StableSort(Unfiltered(PairsOf(query, lossy), filters));
    if pairs == [] then None else Some(Serialize(pairs))
  }

  /** Lossy decoding yields valid text, and keeps valid text. */
  ghost predicate Idempotent(lossy: bytes -> bytes) {
    forall s :: lossy(lossy(s)) == lossy(s)
  }

  // ---------- The canonical query holds exactly its sorted pairs ----------

  lemma {:induction false} ParsedIsPreserved(segments: seq<bytes>, lossy: bytes -> bytes)
    requires Idempotent(lossy)
    ensures Preserved(ParseSegments(segments, lossy), lossy)
  {
    if segments != [] {
      ParsedIsPreserved(segments[1..], lossy);
    }
  }

  lemma {:induction false} UnfilteredValues(pairs: seq<Pair>, filters: seq<bytes>)
    ensures forall key :: Values(Unfiltered(pairs, filters), key) == if key in filters then [] else Values(pairs, key)
    ensures forall p :: p in Unfiltered(pairs, filters) <==> p in pairs && p.key !in filters
  {
    if pairs != [] {
      UnfilteredValues(pairs[1..], filters);
    }
  }

  lemma {:induction false} UnfilteredAll(pairs: seq<Pair>, filters: seq<bytes>)
    requires forall p | p in pairs :: p.key !in filters
    ensures Unfiltered(pairs, filters) == pairs
  {
    if pairs != [] {
      assert pairs[0] in pairs;
      UnfilteredAll(pairs[1..], filters);
    }
  }

  /** The pairs of a canonical query are the sorted unfiltered pairs of the query. */
  lemma CanonicalPairs(query: Option<bytes>, filters: seq<bytes>, lossy: bytes -> bytes)
    requires Idempotent(lossy)
    ensures
      var pairs := StableSort(Unfiltered(PairsOf(query, lossy), filters));
      PairsOf(Canonical(query, filters, lossy), lossy) == pairs
  {
    var parsed := PairsOf(query, lossy);
    ParsedIsPreserved(Split(if query.Some? then query.value else [], AMPERSAND), lossy);
    UnfilteredValues(parsed, filters);
    StableSortIsStable(Unfiltered(parsed, filters));
    ParseSerialize(StableSort(Unfiltered(parsed, filters)), lossy);
    ParseSerialize([], lossy);
  }

  /**
   Two queries have the same canonical form exactly when every unfiltered key has the same
   values in the same order in both.
   */
  lemma CanonicalIsExact(a: Option<bytes>, b: Option<bytes>, filters: seq<bytes>, lossy: bytes -> bytes)
    requires Idempotent(lossy)
    ensures
      Canonical(a, filters, lossy) == Canonical(b, filters, lossy)
      <==> forall key | key !in filters :: Values(PairsOf(a, lossy), key) == Values(PairsOf(b, lossy), key)
  {
    CanonicalPairs(a, filters, lossy);
    CanonicalPairs(b, filters, lossy);
    var x, y := Unfiltered(PairsOf(a, lossy), filters), Unfiltered(PairsOf(b, lossy), filters);
    UnfilteredValues(PairsOf(a, lossy), filters);
    UnfilteredValues(PairsOf(b, lossy), filters);
    StableSortIsStable(x);
    StableSortIsStable(y);
    if StableSort(x) == StableSort(y) {
      forall key | key !in filters ensures Values(PairsOf(a, lossy), key) == Values(PairsOf(b, lossy), key) {
        assert Values(StableSort(x), key) == Values(x, key) && Values(StableSort(y), key) == Values(y, key);
      }
    } else if forall key | key !in filters :: Values(PairsOf(a, lossy), key) == Values(PairsOf(b, lossy), key) {
      SortedUnique(StableSort(x), StableSort(y));
    }
  }

  /** The canonical form of a canonical query is itself. */
  lemma CanonicalIsIdempotent(query: Option<bytes>, filters: seq<bytes>, lossy: bytes -> bytes)
    requires Idempotent(lossy)
    ensures Canonical(Canonical(query, filters, lossy), filters, lossy) == Canonical(query, filters, lossy)
  {
    CanonicalPairs(query, filters, lossy);
    var unfiltered := Unfiltered(PairsOf(query, lossy), filters);
    UnfilteredValues(PairsOf(query, lossy), filters);
    var pairs := StableSort(unfiltered);
    StableSortIsStable(unfiltered);
    UnfilteredAll(pairs, filters);
    StableSortIsStable(pairs);
    SortedUnique(StableSort(pairs), pairs);
  }

  // ---------- The encoding of Go's url.Values ----------

  ghost predicate StrictlyAscending(keys: seq<bytes>) {
    forall i, j | 0 <= i < j < |keys| :: Leq(keys[i], keys[j]) && keys[i] != keys[j]
  }

  /** Appends one pair to the buffer, after a separator unless it comes first. */
  function EncodePair(buffer: bytes, key: bytes, value: bytes): bytes {
    buffer + (if |buffer| > 0 then [AMPERSAND] else []) + Escape(key) + [EQUALS] + Escape(value)
  }

  function EncodeValues(buffer: bytes, key: bytes, values: seq<bytes>): bytes
    decreases |values|
  {
    if values == [] then buffer else EncodeValues(EncodePair(buffer, key, values[0]), key, values[1..])
  }

  /** The keys in the given order, each with its values in arrival order. */
  function EncodeGroups(buffer: bytes, keys: seq<bytes>, pairs: seq<Pair>): bytes
    decreases |keys|
  {
    if keys == [] then buffer else EncodeGroups(EncodeValues(buffer, keys[0], Values(pairs, keys[0])), keys[1..], pairs)
  }

  function GroupOf(key: bytes, values: seq<bytes>): seq<Pair> {
    if values == [] then [] else [Pair(key, values[0])] + GroupOf(key, values[1..])
  }

  /** The pairs key by key. */
  function Grouped(keys: seq<bytes>, pairs: seq<Pair>): seq<Pair> {
    if keys == [] then [] else GroupOf(keys[0], Values(pairs, keys[0])) + Grouped(keys[1..], pairs)
  }

  lemma {:induction false} GroupValues(key: bytes, values: seq<bytes>)
    ensures forall p | p in GroupOf(key, values) :: p.key == key
    ensures forall k :: Values(GroupOf(key, values), k) == if k == key then values else []
  {
    if values != [] {
      GroupValues(key, values[1..]);
      assert values == [values[0]] + values[1..];
    }
  }

  lemma {:induction false} GroupedIsSorted(keys: seq<bytes>, pairs: seq<Pair>)
    requires StrictlyAscending(keys)
    ensures Sorted(Grouped(keys, pairs))
    ensures forall p | p in Grouped(keys, pairs) :: p.key in keys
    ensures forall k :: Values(Grouped(keys, pairs), k) == if k in keys then Values(pairs, k) else []
  {
    if keys != [] {
      var group, rest := GroupOf(keys[0], Values(pairs, keys[0])), Grouped(keys[1..], pairs);
      GroupValues(keys[0], Values(pairs, keys[0]));
      GroupedIsSorted(keys[1..], pairs);
      forall k ensures Values(group + rest, k) == if k in keys then Values(pairs, k) else [] {
        ValuesConcat(group, rest, k);
        assert k in keys <==> k == keys[0] || k in keys[1..];
        assert keys[0] !in keys[1..];
      }
      LeqTotal(keys[0], keys[0]);
      forall i, j | 0 <= i < j < |group + rest| ensures Leq((group + rest)[i].key, (group + rest)[j].key) {
        assert i < |group| ==> group[i] in group;
        if j < |group| {
          assert group[j] in group;
        } else if i < |group| {
          assert rest[j - |group|] in rest;
        }
      }
    }
  }

  lemma {:induction false} JoinAppend(segments: seq<bytes>, last: bytes)
    ensures Join(segments + [last], AMPERSAND) == if segments == [] then last else Join(segments, AMPERSAND) + [AMPERSAND] + last
  {
    if |segments| == 1 {
      assert segments + [last] == [segments[0], last];
    } else if segments != [] {
      assert (segments + [last])[1..] == segments[1..] + [last];
      JoinAppend(segments[1..], last);
    }
  }

  lemma {:induction false} SegmentsAppend(pairs: seq<Pair>, last: Pair)
    ensures Segments(pairs + [last]) == Segments(pairs) + [Segment(last)]
  {
    if pairs != [] {
      assert (pairs + [last])[1..] == pairs[1..] + [last];
      SegmentsAppend(pairs[1..], last);
    }
  }

  lemma PairText(buffer: bytes, key: bytes, value: bytes)
    ensures buffer + key + [EQUALS] + value == buffer + (key + [EQUALS] + value)
  {
  }

  /** The buffer after one more pair. */
  lemma EncodePairSerializes(done: seq<Pair>, pair: Pair)
    ensures EncodePair(Serialize(done), pair.key, pair.value) == Serialize(done + [pair])
  {
    SegmentsAppend(done, pair);
    JoinAppend(Segments(done), Segment(pair));
    var buffer := Serialize(done);
    if done == [] {
      assert EncodePair(buffer, pair.key, pair.value) == Segment(pair);
    } else {
      assert |buffer| >= |Segments(done)[0]| == |Segment(done[0])| > 0;
      PairText(buffer + [AMPERSAND], Escape(pair.key), Escape(pair.value));
    }
  }

  lemma {:induction false} EncodeValuesSerializes(done: seq<Pair>, key: bytes, values: seq<bytes>)
    ensures EncodeValues(Serialize(done), key, values) == Serialize(done + GroupOf(key, values))
    decreases |values|
  {
    if values == [] {
      assert done + GroupOf(key, values) == done;
    } else {
      var pair, rest := Pair(key, values[0]), GroupOf(key, values[1..]);
      calc {
        EncodeValues(Serialize(done), key, values);
        EncodeValues(EncodePair(Serialize(done), key, values[0]), key, values[1..]);
        { EncodePairSerializes(done, pair); }
        EncodeValues(Serialize(done + [pair]), key, values[1..]);
        { EncodeValuesSerializes(done + [pair], key, values[1..]); }
        Serialize(done + [pair] + rest);
        { assert done + [pair] + rest == done + ([pair] + rest); }
        Serialize(done + ([pair] + rest));
      }
    }
  }

  lemma {:induction false} EncodeGroupsSerializes(done: seq<Pair>, keys: seq<bytes>, pairs: seq<Pair>)
    ensures EncodeGroups(Serialize(done), keys, pairs) == Serialize(done + Grouped(keys, pairs))
    decreases |keys|
  {
    if keys == [] {
      assert done + Grouped(keys, pairs) == done;
    } else {
      var group := GroupOf(keys[0], Values(pairs, keys[0]));
      EncodeValuesSerializes(done, keys[0], Values(pairs, keys[0]));
      var rest := Grouped(keys[1..], pairs);
      calc {
        EncodeGroups(Serialize(done), keys, pairs);
        EncodeGroups(Serialize(done + group), keys[1..], pairs);
        { EncodeGroupsSerializes(done + group, keys[1..], pairs); }
        Serialize(done + group + rest);
        { assert done + group + rest == done + (group + rest); }
        Serialize(done + (group + rest));
      }
    }
  }

  /**
   Sorting the pairs stably and serializing them gives the bytes Go gives by grouping the
   values by key and encoding the keys in ascending order.
   */
  lemma SerializesLikeGo(pairs: seq<Pair>, keys: seq<bytes>)
    requires StrictlyAscending(keys)
    requires forall key :: key in keys <==> Values(pairs, key) != []
    ensures Serialize(StableSort(pairs)) == EncodeGroups([], keys, pairs)
  {
    EncodeGroupsSerializes([], keys, pairs);
    assert [] + Grouped(keys, pairs) == Grouped(keys, pairs);
    GroupedIsSorted(keys, pairs);
    StableSortIsStable(pairs);
    SortedUnique(StableSort(pairs), Grouped(keys, pairs));
  }

  lemma {:induction false} EncodeGroupsAlike(buffer: bytes, keys: seq<bytes>, a: seq<Pair>, b: seq<Pair>)
    requires forall key | key in keys :: Values(a, key) == Values(b, key)
    ensures EncodeGroups(buffer, keys, a) == EncodeGroups(buffer, keys, b)
    decreases |keys|
  {
    if keys != [] {
      assert keys[0] in keys;
      EncodeGroupsAlike(EncodeValues(buffer, keys[0], Values(a, keys[0])), keys[1..], a, b);
    }
  }

  lemma SomeValues(pairs: seq<Pair>)
    ensures pairs != [] ==> exists key :: Values(pairs, key) != []
  {
    assert pairs != [] ==> Values(pairs, pairs[0].key) != [];
  }

  /** The canonical query is what Go gives for the unfiltered keys, and absent when there are none. */
  lemma CanonicalLikeGo(query: Option<bytes>, filters: seq<bytes>, lossy: bytes -> bytes, keys: seq<bytes>)
    requires StrictlyAscending(keys)
    requires forall key :: key in keys <==> key !in filters && Values(PairsOf(query, lossy), key) != []
    ensures Canonical(query, filters, lossy) == if keys == [] then None else Some(EncodeGroups([], keys, PairsOf(query, lossy)))
  {
    var all := PairsOf(query, lossy);
    var pairs := Unfiltered(all, filters);
    UnfilteredValues(all, filters);
    SerializesLikeGo(pairs, keys);
    EncodeGroupsAlike([], keys, pairs, all);
    StableSortIsStable(pairs);
    var sorted := StableSort(pairs);
    SomeValues(sorted);
    assert keys != [] ==> Values(sorted, keys[0]) != [];
  }
}
