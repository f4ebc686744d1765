/**
 The urls of blobs and manifests in an OCI registry, and the pattern that takes the digest
 back out of them. The pattern is matched as a backtracking matcher does: each group takes
 as much as it can, giving back only what the rest needs.
 */
module RegistryUrls {
  import opened Results

  const BLOBS: string := "/blobs/"
  const MANIFESTS: string := "/manifests/"
  const SCHEME_END: string := "://"
  const V2: string := "/v2/"

  // ---------- The pattern ----------

  /** No line break from `a` up to `b`. */
  ghost predicate Clear(s: string, a: nat, b: nat) {
    forall i | a <= i < b && i < |s| :: s[i] != '\n'
  }

  predicate At(s: string, i: nat, text: string) {
    i + |text| <= |s| && s[i..i + |text|] == text
  }

  /** The end of the text that starts at `i` and has no question mark. */
  function TextEnd(s: string, i: nat): (e: nat)
    requires i <= |s|
    ensures i <= e <= |s|
    ensures forall k | i <= k < e :: s[k] != '?'
    ensures e < |s| ==> s[e] == '?'
    decreases |s| - i
  {
    if i == |s| || s[i] == '?' then i else TextEnd(s, i + 1)
  }

  /** The last group and what may follow it match at `i`. */
  ghost predicate EndMatches(s: string, i: nat) {
    i <= |s| && i < TextEnd(s, i) && Clear(s, TextEnd(s, i), |s|)
  }

  /** The third group, tried from the longest: the position of its marker, at most `k`. */
  ghost function MatchMarker(s: string, marker: string, from: nat, k: nat): (at: Option<nat>) {
    if k >= from && Clear(s, from, k) && At(s, k, marker) && EndMatches(s, k + |marker|) then Some(k)
    else if k == 0 then None
    else MatchMarker(s, marker, from, k - 1)
  }

  /** The second group, tried from the longest. */
  ghost function MatchV2(s: string, marker: string, from: nat, j: nat): Option<nat> {
    var rest := MatchMarker(s, marker, j + |V2|, |s|);
    if j >= from && Clear(s, from, j) && At(s, j, V2) && rest.Some? then rest
    else if j == 0 then None
    else MatchV2(s, marker, from, j - 1)
  }

  /** The first group, tried from the longest. */
  ghost function MatchScheme(s: string, marker: string, i: nat): Option<nat> {
    var rest := MatchV2(s, marker, i + |SCHEME_END|, |s|);
    if Clear(s, 0, i) && At(s, i, SCHEME_END) && rest.Some? then rest
    else if i == 0 then None
    else MatchScheme(s, marker, i - 1)
  }

  /** The text of the last group when the pattern matches. */
  ghost function Captured(s: string, marker: string): Option<string> {
    match MatchScheme(s, marker, |s|)
    case None => None
    case Some(k) => TextAfter(s, marker, k)
  }

  function TextAfter(s: string, marker: string, k: nat): Option<string> {
    if k + |marker| <= |s| then Some(s[k + |marker|..TextEnd(s, k + |marker|)]) else None
  }

  // ---------- What the greedy match finds ----------

  /** A marker the match could end on. */
  ghost predicate Usable(s: string, marker: string, k: nat) {
    Clear(s, 0, k) && At(s, k, marker) && EndMatches(s, k + |marker|)
  }

  ghost predicate LastUsable(s: string, marker: string, k: nat) {
    Usable(s, marker, k) && forall n: nat | Usable(s, marker, n) :: n <= k
  }

  /** The pattern can match ending on the marker at `k`. */
  ghost predicate Reachable(s: string, k: nat) {
    exists i: nat, j: nat :: At(s, i, SCHEME_END) && At(s, j, V2) && i + |SCHEME_END| <= j && j + |V2| <= k
  }

  lemma UsableFrom(s: string, marker: string, from: nat, k: nat)
    requires from <= k && Clear(s, 0, from)
    ensures Usable(s, marker, k) <==> Clear(s, from, k) && At(s, k, marker) && EndMatches(s, k + |marker|)
  {
    assert Clear(s, 0, k) <==> Clear(s, from, k);
  }

  lemma {:induction false} MarkerFound(s: string, marker: string, from: nat, k: nat)
    requires from <= |s| && Clear(s, 0, from)
    ensures
      match MatchMarker(s, marker, from, k)
      case Some(at) => from <= at <= k && Usable(s, marker, at) && forall n: nat | at < n <= k :: !Usable(s, marker, n)
      case None => forall n: nat | from <= n <= k :: !Usable(s, marker, n)
  {
    if k >= from {
      UsableFrom(s, marker, from, k);
    }
    if !(k >= from && Clear(s, from, k) && At(s, k, marker) && EndMatches(s, k + |marker|)) && k > 0 {
      MarkerFound(s, marker, from, k - 1);
    }
  }

  lemma {:induction false} V2Found(s: string, marker: string, from: nat, j: nat)
    requires from <= |s| && Clear(s, 0, from)
    ensures
      match MatchV2(s, marker, from, j)
      case Some(at) =>
        && LastUsable(s, marker, at)
        && exists j': nat :: from <= j' && At(s, j', V2) && j' + |V2| <= at
      case None => forall j': nat, n: nat | from <= j' <= j && At(s, j', V2) && j' + |V2| <= n :: !Usable(s, marker, n)
  {
    if j >= from && At(s, j, V2) && Clear(s, from, j) {
      AtIsClear(s, j, V2);
      MarkerFound(s, marker, j + |V2|, |s|);
    }
    if !(j >= from && Clear(s, from, j) && At(s, j, V2) && MatchMarker(s, marker, j + |V2|, |s|).Some?) && j > 0 {
      V2Found(s, marker, from, j - 1);
    }
  }

  lemma AtIsClear(s: string, i: nat, text: string)
    requires At(s, i, text) && '\n' !in text
    ensures Clear(s, i, i + |text|)
  {
    forall k | i <= k < i + |text| ensures s[k] != '\n' {
      assert s[k] == s[i..i + |text|][k - i];
    }
  }

  lemma {:induction false} SchemeFound(s: string, marker: string, i: nat)
    ensures
      match MatchScheme(s, marker, i)
      case Some(at) => LastUsable(s, marker, at) && Reachable(s, at)
      case None =>
        forall i': nat, j': nat, n: nat | i' <= i && At(s, i', SCHEME_END) && i' + |SCHEME_END| <= j' && At(s, j', V2) && j' + |V2| <= n ::
          !Usable(s, marker, n)
  {
    if At(s, i, SCHEME_END) && Clear(s, 0, i) {
      AtIsClear(s, i, SCHEME_END);
      V2Found(s, marker, i + |SCHEME_END|, |s|);
      if MatchV2(s, marker, i + |SCHEME_END|, |s|).Some? {
        return;
      }
    }
    if i > 0 {
      SchemeFound(s, marker, i - 1);
    }
    if MatchScheme(s, marker, i) == None {
      forall i': nat, j': nat, n: nat
        | i' <= i && At(s, i', SCHEME_END) && i' + |SCHEME_END| <= j' && At(s, j', V2) && j' + |V2| <= n
        ensures !Usable(s, marker, n)
      {
        if i' == i {
          assert Clear(s, 0, n) ==> Clear(s, 0, i);
        }
      }
    }
  }

  /**
   Whatever the first two groups take, the greedy match ends on the last usable marker of
   the url, and it matches exactly when a scheme and a version come before that marker.
   */
  lemma GreedyMatchEndsOnLastMarker(s: string, marker: string, k: nat)
    requires LastUsable(s, marker, k)
    ensures Captured(s, marker) == if Reachable(s, k) then TextAfter(s, marker, k) else None
  {
    SchemeFound(s, marker, |s|);
  }

  // ---------- The pattern as a decomposition of the text ----------

  ghost predicate OneLine(s: string) {
    '\n' !in s
  }

  /** One way to read `s` as the pattern: scheme, registry, repository, the captured text, and what follows it. */
  ghost predicate Reads(s: string, marker: string, scheme: string, registry: string, repository: string, text: string, rest: string) {
    && s == scheme + "://" + registry + "/v2/" + repository + marker + text + rest
    && OneLine(scheme) && OneLine(registry) && OneLine(repository)
    && text != "" && '?' !in text
    && (rest == "" || (rest[0] == '?' && OneLine(rest)))
  }

  function BeforeMarker(scheme: string, registry: string, repository: string): string {
    scheme + "://" + registry + "/v2/" + repository
  }

  lemma PieceAt(a: string, piece: string, b: string)
    ensures At(a + piece + b, |a|, piece)
  {
    var s := a + piece + b;
    assert s[|a|..|a| + |piece|] == piece;
  }

  lemma {:induction false} TextEndAt(s: string, i: nat, e: nat)
    requires i <= e <= |s|
    requires forall k | i <= k < e :: s[k] != '?'
    requires e < |s| ==> s[e] == '?'
    ensures TextEnd(s, i) == e
    decreases e - i
  {
    if i < e {
      TextEndAt(s, i + 1, e);
    }
  }

  /** A marker with a text after it is usable, and the text is what follows it. */
  lemma MarkerUsable(head: string, marker: string, text: string, rest: string)
    requires OneLine(head) && OneLine(rest)
    requires |text| > 0 && '?' !in text
    requires rest == "" || rest[0] == '?'
    ensures
      var s := head + marker + text + rest;
      Usable(s, marker, |head|) && TextAfter(s, marker, |head|) == Some(text)
  {
    var s := head + marker + text + rest;
    var start := |head + marker|;
    assert s[|head|..start] == marker;
    assert s[start..start + |text|] == text;
    assert forall k | start <= k < start + |text| :: s[k] == text[k - start];
    assert forall i | 0 <= i < |head| :: s[i] == head[i];
    assert forall i | start + |text| <= i < |s| :: s[i] == rest[i - start - |text|];
    TextEndAt(s, start, start + |text|);
  }

  lemma RegroupReading(scheme: string, registry: string, repository: string, after: string)
    ensures
      var s := BeforeMarker(scheme, registry, repository) + after;
      && s == scheme + "://" + (registry + "/v2/" + repository + after)
      && s == scheme + "://" + registry + "/v2/" + (repository + after)
  {
  }

  lemma BeforeIsOneLine(scheme: string, registry: string, repository: string)
    requires OneLine(scheme) && OneLine(registry) && OneLine(repository)
    ensures OneLine(BeforeMarker(scheme, registry, repository))
  {
  }

  lemma BeforeReaches(scheme: string, registry: string, repository: string, after: string)
    ensures Reachable(BeforeMarker(scheme, registry, repository) + after, |BeforeMarker(scheme, registry, repository)|)
  {
    var s, i, j := BeforeMarker(scheme, registry, repository) + after, |scheme|, |scheme + "://" + registry|;
    RegroupReading(scheme, registry, repository, after);
    PieceAt(scheme, "://", registry + "/v2/" + repository + after);
    PieceAt(scheme + "://" + registry, "/v2/", repository + after);
    assert At(s, i, SCHEME_END) && At(s, j, V2);
  }

  /** A reading makes its marker usable and reachable, with the text after it. */
  lemma ReadingIsUsable(s: string, marker: string, scheme: string, registry: string, repository: string, text: string, rest: string)
    requires Reads(s, marker, scheme, registry, repository, text, rest)
    ensures
      var k := |BeforeMarker(scheme, registry, repository)|;
      Usable(s, marker, k) && Reachable(s, k) && TextAfter(s, marker, k) == Some(text)
  {
    var head := BeforeMarker(scheme, registry, repository);
    BeforeIsOneLine(scheme, registry, repository);
    MarkerUsable(head, marker, text, rest);
    BeforeReaches(scheme, registry, repository, marker + text + rest);
    assert s == head + (marker + text + rest);
  }

  lemma CutAtPiece(s: string, i: nat, piece: string, k: nat)
    requires At(s, i, piece) && i + |piece| <= k <= |s|
    ensures s[..k] == s[..i] + piece + s[i + |piece|..k]
  {
  }

  lemma ClearHasNone(s: string, a: nat, b: nat, c: nat, d: nat)
    requires a <= c <= d <= b && d <= |s| && Clear(s, a, b)
    ensures '\n' !in s[c..d]
  {
  }

  /** A usable marker that can be reached is the marker of some reading. */
  lemma UsableIsReading(s: string, marker: string, k: nat)
      returns (scheme: string, registry: string, repository: string, text: string, rest: string)
    requires Usable(s, marker, k) && Reachable(s, k)
    ensures Reads(s, marker, scheme, registry, repository, text, rest) && |BeforeMarker(scheme, registry, repository)| == k
    ensures TextAfter(s, marker, k) == Some(text)
  {
    var i: nat, j: nat :| At(s, i, SCHEME_END) && At(s, j, V2) && i + |SCHEME_END| <= j && j + |V2| <= k;
    var start := k + |marker|;
    var e := TextEnd(s, start);
    scheme, registry, repository, text, rest := s[..i], s[i + 3..j], s[j + 4..k], s[start..e], s[e..];
    CutAtPiece(s, i, "://", j);
    CutAtPiece(s, j, "/v2/", k);
    CutAtPiece(s, k, marker, e);
    assert s == s[..e] + s[e..];
    ClearHasNone(s, 0, k, 0, i);
    ClearHasNone(s, 0, k, i + 3, j);
    ClearHasNone(s, 0, k, j + 4, k);
    ClearHasNone(s, e, |s|, e, |s|);
    assert forall n | 0 <= n < |text| :: text[n] == s[start + n];
    assert rest != "" ==> rest[0] == s[e];
  }

  /**
   The pattern captures the text of the reading whose marker comes last, and nothing when
   the text cannot be read so.
   */
  lemma CapturesLastReading(s: string, marker: string)
    requires marker == "/blobs/" || marker == "/manifests/"
    ensures
      match Captured(s, marker)
      case None => forall a, b, c, text, rest :: !Reads(s, marker, a, b, c, text, rest)
      case Some(text) => exists a, b, c, rest :: Reads(s, marker, a, b, c, text, rest) && NoLaterReading(s, marker, |BeforeMarker(a, b, c)|)
  {
    SchemeFound(s, marker, |s|);
    match MatchScheme(s, marker, |s|)
    case None =>
      forall a, b, c, text, rest ensures !Reads(s, marker, a, b, c, text, rest) {
        if Reads(s, marker, a, b, c, text, rest) {
          ReadingIsUsable(s, marker, a, b, c, text, rest);
        }
      }
    case Some(k) =>
      var a, b, c, text, rest := UsableIsReading(s, marker, k);
      forall a', b', c', text', rest' | Reads(s, marker, a', b', c', text', rest') ensures |BeforeMarker(a', b', c')| <= k {
        ReadingIsUsable(s, marker, a', b', c', text', rest');
      }
      assert NoLaterReading(s, marker, |BeforeMarker(a, b, c)|);
  }

  ghost predicate NoLaterReading(s: string, marker: string, k: nat) {
    forall a, b, c, text, rest | Reads(s, marker, a, b, c, text, rest) :: |BeforeMarker(a, b, c)| <= k
  }
}
