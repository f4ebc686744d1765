/**
 Task ids of registry urls. The url built for a blob gives the digest back whatever the
 registry and the repository are called. The url built for a manifest does too, unless the
 repository has a path component named blobs after its first: then it reads as a blob url.
 */
module TaskIds {
  import opened Results
  import opened Digests
  import opened RegistryUrls

  function BuildUrl(registry: string, repository: string, marker: string, reference: string): string {
    "https" + SCHEME_END + registry + V2 + repository + marker + reference
  }

  function WithQuery(url: string, query: Option<string>): string {
    if query.Some? then url + "?" + query.value else url
  }

  ghost function ExtractDigest(url: string, marker: string): Option<Digest> {
    match Captured(url, marker)
    case None => None
    case Some(text) => Parse(text)
  }

  datatype Parameter =
    | Content(content: string)
    | UrlBased(url: string)
    | BlobDigestBased(url: string)
    | ManifestDigestBased(url: string)

  /** Which kind of task id a request asks for. */
  ghost function Dispatch(url: string, content: Option<string>, enabled: bool): Parameter {
    if content.Some? then Content(content.value)
    else if enabled && Captured(url, BLOBS).Some? then BlobDigestBased(url)
    else if enabled && ExtractDigest(url, MANIFESTS).Some? then ManifestDigestBased(url)
    else UrlBased(url)
  }

  datatype Error = InvalidArgument(url: string)

  /** `hash` hashes a content, `urlBased` hashes a canonical url with its metadata. */
  ghost function TaskId(parameter: Parameter, hash: string -> string, urlBased: string -> Result<string, Error>): Result<string, Error> {
    match parameter
    case Content(content) => Ok(hash(content))
    case UrlBased(url) => urlBased(url)
    case BlobDigestBased(url) => EncodedOf(url, BLOBS)
    case ManifestDigestBased(url) => EncodedOf(url, MANIFESTS)
  }

  ghost function EncodedOf(url: string, marker: string): Result<string, Error> {
    match ExtractDigest(url, marker)
    case None => Err(InvalidArgument(url))
    case Some(digest) => Ok(digest.encoded)
  }

  /** A digest that can stand in a path. */
  ghost predicate PathDigest(digest: Digest) {
    ValidDigest(digest) && '/' !in digest.encoded && '?' !in digest.encoded && OneLine(digest.encoded)
  }

  // ---------- Markers in a built url ----------

  /** A marker starts and ends with a slash and has none between. */
  ghost predicate IsMarker(marker: string) {
    marker == BLOBS || marker == MANIFESTS
  }

  lemma DisplayText(digest: Digest)
    requires PathDigest(digest)
    ensures
      var text := Display(digest);
      |text| > 0 && '/' !in text && '?' !in text && OneLine(text) && Parse(text) == Some(digest)
  {
    ParsesExactlyDisplays(Display(digest), digest);
    InDisplay(digest, '/');
    InDisplay(digest, '?');
    InDisplay(digest, '\n');
  }

  lemma InDisplay(digest: Digest, c: char)
    ensures c in Display(digest) <==> c in AlgorithmText(digest.algorithm) || c == ':' || c in digest.encoded
  {
    assert c in ":" <==> c == ':';
  }

  /** The markers in the query of a url are those of the query alone. */
  lemma UsableInQuery(prefix: string, query: string, marker: string, t: nat)
    requires OneLine(prefix)
    ensures Usable(prefix + query, marker, |prefix| + t) <==> Usable(query, marker, t)
  {
    var s, p := prefix + query, |prefix|;
    assert forall i | 0 <= i < p :: s[i] == prefix[i];
    assert forall i | p <= i < |s| :: s[i] == query[i - p];
    if t + |marker| <= |query| {
      assert s[p + t..p + t + |marker|] == query[t..t + |marker|];
      var e := TextEnd(query, t + |marker|);
      TextEndAt(s, p + t + |marker|, p + e);
      ClearShift(prefix, query, e);
    }
    ClearPrefix(prefix, query, t);
  }

  lemma ClearShift(prefix: string, query: string, e: nat)
    ensures Clear(prefix + query, |prefix| + e, |prefix + query|) <==> Clear(query, e, |query|)
  {
    var s, p := prefix + query, |prefix|;
    forall i | e <= i < |query| && Clear(s, p + e, |s|) ensures query[i] != '\n' {
      assert s[p + i] == query[i];
    }
  }

  lemma ClearPrefix(prefix: string, query: string, t: nat)
    requires OneLine(prefix)
    ensures Clear(prefix + query, 0, |prefix| + t) <==> Clear(query, 0, t)
  {
    var s, p := prefix + query, |prefix|;
    forall i | 0 <= i < t && i < |query| && Clear(s, 0, p + t) ensures query[i] != '\n' {
      assert s[p + i] == query[i];
    }
  }

  /** No marker starts inside the marker before the reference, or in the reference. */
  lemma NoMarkerInReference(prefix: string, marker: string, text: string, rest: string, k: nat)
    requires IsMarker(marker)
    requires '/' !in text && '?' !in text
    requires rest == "" || rest[0] == '?'
    requires |prefix| < k <= |prefix + marker + text|
    ensures !At(prefix + marker + text + rest, k, marker)
  {
    var s, p, end := prefix + marker + text + rest, |prefix|, |prefix + marker + text|;
    if k + |marker| <= |s| {
      var w, last := s[k..k + |marker|], k + |marker| - 1;
      assert w[0] == s[k] && w[|marker| - 1] == s[last];
      if last >= end {
        assert w[end - k] == s[end] == rest[0];
      } else if k < p + |marker| {
        assert s[k] == marker[k - p];
        assert s[last] == text[last - p - |marker|];
      } else {
        assert s[k] == text[k - p - |marker|];
      }
    }
  }

  // ---------- Digests come back out of built urls ----------

  function QueryText(query: Option<string>): string {
    if query.Some? then "?" + query.value else ""
  }

  function Head(registry: string, repository: string): string {
    "https" + SCHEME_END + registry + V2 + repository
  }

  lemma BuiltText(registry: string, repository: string, marker: string, reference: string, query: Option<string>)
    ensures WithQuery(BuildUrl(registry, repository, marker, reference), query) ==
            Head(registry, repository) + marker + reference + QueryText(query)
  {
  }

  lemma HeadIsOneLine(registry: string, repository: string)
    requires OneLine(registry) && OneLine(repository)
    ensures OneLine(Head(registry, repository))
  {
  }

  lemma Reassociate(head: string, marker: string, text: string, rest: string)
    ensures head + marker + text + rest == head + (marker + text + rest)
  {
  }

  /** The scheme and the version stand before every marker from the end of the head on. */
  lemma HeadIsReachable(registry: string, repository: string, tail: string, k: nat)
    requires |Head(registry, repository)| <= k
    ensures Reachable(Head(registry, repository) + tail, k)
  {
    var s := Head(registry, repository) + tail;
    assert s == "https" + SCHEME_END + (registry + V2 + repository + tail);
    assert s[5..8] == SCHEME_END;
    var v := "https" + SCHEME_END + registry;
    assert s == v + V2 + (repository + tail);
    assert s[|v|..|v| + 4] == V2;
    assert At(s, 5, SCHEME_END) && At(s, |v|, V2);
  }

  lemma EndInQuery(prefix: string, query: string, start: nat)
    requires start <= |query|
    ensures TextEnd(prefix + query, |prefix| + start) == |prefix| + TextEnd(query, start)
  {
    var s, p, e := prefix + query, |prefix|, TextEnd(query, start);
    assert forall i | p <= i < |s| :: s[i] == query[i - p];
    TextEndAt(s, p + start, p + e);
  }

  lemma SliceInQuery(prefix: string, query: string, i: nat, j: nat)
    requires i <= j <= |query|
    ensures (prefix + query)[|prefix| + i..|prefix| + j] == query[i..j]
  {
  }

  lemma SameText(prefix: string, query: string, marker: string, t: nat)
    requires t + |marker| <= |query|
    ensures TextAfter(prefix + query, marker, |prefix| + t) == TextAfter(query, marker, t)
  {
    var start := t + |marker|;
    EndInQuery(prefix, query, start);
    SliceInQuery(prefix, query, start, TextEnd(query, start));
  }

  /** The last usable marker in the query, and its text, are the same in the url. */
  lemma LastInQuery(prefix: string, query: string, marker: string)
    requires OneLine(prefix)
    ensures
      var s, p := prefix + query, |prefix|;
      match MatchMarker(query, marker, 0, |query|)
      case Some(t) =>
        && Usable(s, marker, p + t)
        && TextAfter(s, marker, p + t) == TextAfter(query, marker, t)
        && forall n: nat | n > p + t :: !Usable(s, marker, n)
      case None => forall n: nat | n >= p :: !Usable(s, marker, n)
  {
    var p := |prefix|;
    MarkerFound(query, marker, 0, |query|);
    forall n: nat | n >= p ensures Usable(prefix + query, marker, n) <==> Usable(query, marker, n - p) {
      UsableInQuery(prefix, query, marker, n - p);
    }
    var found := MatchMarker(query, marker, 0, |query|);
    forall n: nat | n >= p && (found.Some? ==> n > p + found.value) ensures !Usable(prefix + query, marker, n) {
      assert n - p <= |query| ==> !Usable(query, marker, n - p);
    }
    if found.Some? {
      SameText(prefix, query, marker, found.value);
      UsableInQuery(prefix, query, marker, found.value);
    }
  }

  /** The text after the last usable marker of the query, if the query has one. */
  ghost function QueryCapture(query: Option<string>, marker: string): Option<string> {
    if query.None? then None else
      match MatchMarker(query.value, marker, 0, |query.value|)
      case None => None
      case Some(t) => TextAfter(query.value, marker, t)
  }

  /** A usable marker in the query is after all others. */
  lemma QueryDecides(prefix: string, query: string, marker: string) returns (last: nat)
    requires OneLine(prefix) && QueryCapture(Some(query), marker).Some?
    ensures |prefix| <= last && LastUsable(prefix + query, marker, last)
    ensures TextAfter(prefix + query, marker, last) == QueryCapture(Some(query), marker)
  {
    last := |prefix| + MatchMarker(query, marker, 0, |query|).value;
    LastInQuery(prefix, query, marker);
    forall n: nat | Usable(prefix + query, marker, n) ensures n <= last {
    }
  }

  /** Without a usable marker past the reference, the one before it is the last. */
  lemma LastBeforeDigest(head: string, marker: string, text: string, rest: string)
    requires OneLine(head) && OneLine(rest) && IsMarker(marker)
    requires |text| > 0 && '/' !in text && '?' !in text
    requires rest == "" || rest[0] == '?'
    requires forall n: nat | n > |head + marker + text| :: !Usable(head + marker + text + rest, marker, n)
    ensures LastUsable(head + marker + text + rest, marker, |head|)
  {
    MarkerUsable(head, marker, text, rest);
    forall n: nat | Usable(head + marker + text + rest, marker, n) ensures n <= |head| {
      if |head| < n <= |head + marker + text| {
        NoMarkerInReference(head, marker, text, rest, n);
      }
    }
  }

  /** The last usable marker of a built url, and the text after it. */
  lemma LastMarkerOfBuilt(head: string, marker: string, text: string, query: Option<string>) returns (last: nat)
    requires OneLine(head) && OneLine(text) && IsMarker(marker)
    requires query.Some? ==> OneLine(query.value)
    requires |text| > 0 && '/' !in text && '?' !in text
    ensures |head| <= last && LastUsable(head + marker + text + QueryText(query), marker, last)
    ensures TextAfter(head + marker + text + QueryText(query), marker, last) ==
            if QueryCapture(query, marker).Some? then QueryCapture(query, marker) else Some(text)
  {
    var rest, prefix := QueryText(query), head + marker + text + "?";
    if query.Some? {
      assert head + marker + text + rest == prefix + query.value;
      if QueryCapture(query, marker).Some? {
        last := QueryDecides(prefix, query.value, marker);
        return;
      }
      LastInQuery(prefix, query.value, marker);
      MarkerFound(query.value, marker, 0, |query.value|);
    }
    last := |head|;
    MarkerUsable(head, marker, text, rest);
    LastBeforeDigest(head, marker, text, rest);
  }

  /**
   The text the pattern takes from a built url: the digest, or what follows the last usable
   marker of the query if the query has one.
   */
  lemma CapturedFromBuilt(registry: string, repository: string, marker: string, text: string, query: Option<string>)
    requires OneLine(registry) && OneLine(repository) && IsMarker(marker)
    requires query.Some? ==> OneLine(query.value)
    requires |text| > 0 && '/' !in text && '?' !in text && OneLine(text)
    ensures
      Captured(WithQuery(BuildUrl(registry, repository, marker, text), query), marker) ==
      if QueryCapture(query, marker).Some? then QueryCapture(query, marker) else Some(text)
  {
    var head, rest := Head(registry, repository), QueryText(query);
    var s := head + marker + text + rest;
    BuiltText(registry, repository, marker, text, query);
    HeadIsOneLine(registry, repository);
    var last := LastMarkerOfBuilt(head, marker, text, query);
    Reassociate(head, marker, text, rest);
    HeadIsReachable(registry, repository, marker + text + rest, last);
    GreedyMatchEndsOnLastMarker(s, marker, last);
  }

  /** A blob or manifest url without a marker in its query gives back its digest. */
  lemma DigestComesBack(registry: string, repository: string, marker: string, digest: Digest, query: Option<string>)
    requires OneLine(registry) && OneLine(repository) && IsMarker(marker) && PathDigest(digest)
    requires query.Some? ==> OneLine(query.value) && forall t: nat :: !Usable(query.value, marker, t)
    ensures ExtractDigest(WithQuery(BuildUrl(registry, repository, marker, Display(digest)), query), marker) == Some(digest)
  {
    DisplayText(digest);
    if query.Some? {
      MarkerFound(query.value, marker, 0, |query.value|);
    }
    CapturedFromBuilt(registry, repository, marker, Display(digest), query);
  }

  /** What a text taken from a url gives: its hash when it is a digest, else an error. */
  function EncodedText(text: string, url: string): Result<string, Error> {
    match Parse(text)
    case None => Err(InvalidArgument(url))
    case Some(digest) => Ok(digest.encoded)
  }

  /** The urls the builder makes. */
  lemma BuiltUrls(registry: string, repository: string, reference: string)
    ensures BuildUrl(registry, repository, BLOBS, reference) == "https://" + registry + "/v2/" + repository + "/blobs/" + reference
    ensures BuildUrl(registry, repository, MANIFESTS, reference) == "https://" + registry + "/v2/" + repository + "/manifests/" + reference
  {
    assert "https" + SCHEME_END == "https://";
  }

  /** A content given for the task id decides it alone; without one, and with digests switched off, the url and its metadata do. */
  lemma TaskIdWithoutDigest(
      url: string, content: Option<string>, enabled: bool, hash: string -> string, urlBased: string -> Result<string, Error>)
    ensures content.Some? ==> TaskId(Dispatch(url, content, enabled), hash, urlBased) == Ok(hash(content.value))
    ensures content.None? && !enabled ==> TaskId(Dispatch(url, content, enabled), hash, urlBased) == urlBased(url)
  {
  }

  /** With digests switched on and no content, the texts the two patterns take from a url decide its task id. */
  lemma TaskIdOfTexts(url: string, hash: string -> string, urlBased: string -> Result<string, Error>)
    ensures
      TaskId(Dispatch(url, None, true), hash, urlBased) ==
      match Captured(url, BLOBS)
      case Some(text) => EncodedText(text, url)
      case None =>
        match ExtractDigest(url, MANIFESTS)
        case Some(digest) => Ok(digest.encoded)
        case None => urlBased(url)
  {
  }

  /**
   The task id of a blob is its hash, whatever registry and repository it is pulled from,
   unless the query has a usable marker of its own: then the text after the last one decides.
   */
  lemma BlobTaskId(
      registry: string, repository: string, digest: Digest, query: Option<string>,
      hash: string -> string, urlBased: string -> Result<string, Error>)
    requires OneLine(registry) && OneLine(repository) && PathDigest(digest)
    requires query.Some? ==> OneLine(query.value)
    ensures
      var url := WithQuery(BuildUrl(registry, repository, BLOBS, Display(digest)), query);
      TaskId(Dispatch(url, None, true), hash, urlBased) ==
      match QueryCapture(query, BLOBS)
      case Some(text) => EncodedText(text, url)
      case None => Ok(digest.encoded)
  {
    DisplayText(digest);
    CapturedFromBuilt(registry, repository, BLOBS, Display(digest), query);
    TaskIdOfTexts(WithQuery(BuildUrl(registry, repository, BLOBS, Display(digest)), query), hash, urlBased);
  }

  /** The query is left alone exactly when none of its markers is usable. */
  lemma QueryCaptureFindsMarkers(query: string, marker: string)
    ensures
      match QueryCapture(Some(query), marker)
      case Some(text) => exists t: nat :: LastUsable(query, marker, t) && TextAfter(query, marker, t) == Some(text)
      case None => forall t: nat :: !Usable(query, marker, t)
  {
    MarkerFound(query, marker, 0, |query|);
    var found := MatchMarker(query, marker, 0, |query|);
    if found.Some? {
      assert LastUsable(query, marker, found.value) by {
        forall n: nat | Usable(query, marker, n) ensures n <= found.value {
        }
      }
    }
  }

  lemma HiddenCapture()
    ensures QueryCapture(Some("ns=/blobs/none"), BLOBS) == Some("none")
  {
    var q := "ns=/blobs/none";
    assert q[3..10] == BLOBS && q[10..14] == "none";
    TextEndAt(q, 10, 14);
    assert Usable(q, BLOBS, 3);
    forall n: nat | n > 3 ensures !At(q, n, BLOBS) {
      if n + 7 <= |q| {
        assert q[n..n + 7][6] == q[n + 6];
      }
    }
    QueryCaptureFindsMarkers(q, BLOBS);
  }

  /** A blob url whose query hides its digest: there is no task id. */
  lemma BlobQueryHidesDigest(
      registry: string, repository: string, digest: Digest, hash: string -> string, urlBased: string -> Result<string, Error>)
    requires OneLine(registry) && OneLine(repository) && PathDigest(digest)
    ensures
      var url := WithQuery(BuildUrl(registry, repository, BLOBS, Display(digest)), Some("ns=/blobs/none"));
      TaskId(Dispatch(url, None, true), hash, urlBased) == Err(InvalidArgument(url))
  {
    HiddenCapture();
    assert Parse("none") == None by {
      assert ':' !in "none";
      assert Colon("none") == 4;
    }
    BlobTaskId(registry, repository, digest, Some("ns=/blobs/none"), hash, urlBased);
  }

  /** So the same blob in two registries is one task. */
  lemma SameBlobSameTask(
      registry: string, repository: string, otherRegistry: string, otherRepository: string, digest: Digest,
      hash: string -> string, urlBased: string -> Result<string, Error>)
    requires OneLine(registry) && OneLine(repository) && OneLine(otherRegistry) && OneLine(otherRepository) && PathDigest(digest)
    ensures
      TaskId(Dispatch(BuildUrl(registry, repository, BLOBS, Display(digest)), None, true), hash, urlBased) ==
      TaskId(Dispatch(BuildUrl(otherRegistry, otherRepository, BLOBS, Display(digest)), None, true), hash, urlBased) ==
      Ok(digest.encoded)
  {
    BlobTaskId(registry, repository, digest, None, hash, urlBased);
    BlobTaskId(otherRegistry, otherRepository, digest, None, hash, urlBased);
  }

  // ---------- Manifests, and repositories that look like blob paths ----------

  /** The repository has a path component named blobs after its first. */
  ghost predicate NamesBlobs(repository: string) {
    exists t: nat :: At(repository + "/", t, BLOBS)
  }

  /** A marker for blobs after the head of a manifest url lies in the repository. */
  lemma BlobMarkerInRepository(repository: string, text: string, t: nat)
    requires '/' !in text
    ensures At(repository + MANIFESTS + text, t, BLOBS) <==> At(repository + "/", t, BLOBS)
  {
    var s, r := repository + MANIFESTS + text, |repository|;
    assert s[..r + 1] == repository + "/";
    if t + 7 <= r + 1 {
      assert s[t..t + 7] == (repository + "/")[t..t + 7];
    } else if t + 7 <= |s| {
      var w := s[t..t + 7];
      assert w[0] == s[t] && w[6] == s[t + 6];
      if t + 6 < r + 11 {
        assert s[t + 6] == MANIFESTS[t + 6 - r];
        if t + 6 == r + 10 {
          assert w[1] == s[t + 1];
          assert s[t + 1] == MANIFESTS[t + 1 - r];
        }
      } else {
        assert s[t + 6] == text[t + 6 - r - 11];
      }
    }
  }

  /** What the first two groups leave of a built url starts no earlier than the repository. */
  lemma RepositoryIsFirst(registry: string, repository: string, tail: string, k: nat)
    requires '/' !in registry
    requires Reachable(Head(registry, repository) + tail, k)
    ensures k >= |"https" + SCHEME_END + registry + V2|
  {
    var s := Head(registry, repository) + tail;
    var i: nat, j: nat :| At(s, i, SCHEME_END) && At(s, j, V2) && i + |SCHEME_END| <= j && j + |V2| <= k;
    HeadCharacters(registry, repository, tail);
    assert s[i..i + 3][0] == s[i] == ':';
    assert s[j..j + 4][0] == s[j] == '/';
    assert i >= 5;
    assert forall n | 8 <= n < 8 + |registry| :: s[n] in registry;
  }

  lemma HeadCharacters(registry: string, repository: string, tail: string)
    ensures
      var s := Head(registry, repository) + tail;
      && |s| >= 8 + |registry|
      && (forall n | 0 <= n < 5 :: s[n] != ':')
      && (forall n | 8 <= n < 8 + |registry| :: s[n] == registry[n - 8])
  {
    var scheme, s := "https", Head(registry, repository) + tail;
    assert forall n | 0 <= n < 5 :: s[n] == scheme[n];
  }

  function Front(registry: string): string {
    "https" + SCHEME_END + registry + V2
  }

  lemma Regroup(front: string, repository: string, marker: string, text: string, rest: string)
    ensures front + repository + marker + text + rest == front + (repository + marker + text) + rest
    ensures front + repository + marker + text + rest == (front + repository) + (marker + text + rest)
  {
  }

  lemma QueryAtEnd(url: string, query: Option<string>)
    ensures WithQuery(url, query) == url + QueryText(query)
  {
  }

  lemma ManifestText(registry: string, repository: string, text: string, query: Option<string>)
    ensures
      var url, rest := WithQuery(BuildUrl(registry, repository, MANIFESTS, text), query), QueryText(query);
      && url == Front(registry) + (repository + MANIFESTS + text) + rest
      && url == Head(registry, repository) + (MANIFESTS + text + rest)
  {
    QueryAtEnd(BuildUrl(registry, repository, MANIFESTS, text), query);
    Regroup(Front(registry), repository, MANIFESTS, text, QueryText(query));
  }

  lemma BodyIsOneLine(registry: string, repository: string, text: string)
    requires OneLine(registry) && OneLine(repository) && OneLine(text)
    ensures OneLine(Front(registry) + (repository + MANIFESTS + text))
  {
  }

  /** Such a text is no digest, since no algorithm has a slash in its name. */
  ghost predicate SlashBeforeColon(text: string) {
    exists i :: 0 <= i < |text| && text[i] == '/' && ':' !in text[..i]
  }

  lemma SlashBeforeColonIsNoDigest(text: string)
    requires SlashBeforeColon(text)
    ensures Parse(text) == None
  {
    var i :| 0 <= i < |text| && text[i] == '/' && ':' !in text[..i];
    var n := Colon(text);
    assert forall j | 0 <= j < i :: text[j] == text[..i][j];
    assert i < n;
    assert text[..n][i] == '/';
  }

  lemma NoColonBefore(repository: string, text: string)
    requires ':' !in repository
    ensures forall i | 0 <= i < |repository| + 10 :: (repository + MANIFESTS + text)[i] != ':'
  {
    var tail := repository + MANIFESTS + text;
    assert forall i | 0 <= i < |repository| :: tail[i] == repository[i];
    assert forall i | |repository| <= i < |repository| + 10 :: tail[i] == MANIFESTS[i - |repository|];
  }

  /** The text after a marker for blobs in a manifest url still holds the slash of the manifest. */
  lemma SlashAfterMarker(front: string, repository: string, text: string, k: nat)
    requires '?' !in repository && '?' !in text && '/' !in text
    requires k >= |front| && At(front + (repository + MANIFESTS + text), k, BLOBS)
    ensures
      var url := front + (repository + MANIFESTS + text);
      && At(repository + "/", k - |front|, BLOBS)
      && TextEnd(url, k + 7) == |url| > k + 7
      && TextAfter(url, BLOBS, k).Some? && '/' in TextAfter(url, BLOBS, k).value
      && (':' !in repository ==> SlashBeforeColon(TextAfter(url, BLOBS, k).value))
  {
    var tail, p := repository + MANIFESTS + text, |front|;
    var url := front + tail;
    assert url[k..k + 7] == tail[k - p..k - p + 7];
    BlobMarkerInRepository(repository, text, k - p);
    assert forall i | p <= i < |url| :: url[i] == tail[i - p];
    TextEndAt(url, k + 7, |url|);
    var slash := |repository| + 10;
    assert tail[slash] == MANIFESTS[10] == '/';
    var captured, at := url[k + 7..], p + slash - k - 7;
    assert TextAfter(url, BLOBS, k) == Some(url[k + 7..|url|]) && url[k + 7..|url|] == captured;
    assert captured[at] == url[p + slash] == '/';
    if ':' !in repository {
      NoColonBefore(repository, text);
      assert forall i | 0 <= i < at :: captured[i] == tail[i + k + 7 - p];
      assert ':' !in captured[..at];
      assert SlashBeforeColon(captured);
    }
  }

  /** A marker that starts before the query ends before it. */
  lemma MarkerBeforeQuery(body: string, rest: string, k: nat)
    requires rest == "" || rest[0] == '?'
    requires k <= |body|
    ensures At(body + rest, k, BLOBS) <==> At(body, k, BLOBS)
  {
    var s := body + rest;
    if k + 7 <= |body| {
      assert s[k..k + 7] == body[k..k + 7];
    } else if k + 7 <= |s| {
      assert s[k..k + 7][|body| - k] == s[|body|] == rest[0];
    }
  }

  /** The text that ends where the query starts is the same with the query and without. */
  lemma TextBeforeQuery(body: string, rest: string, k: nat)
    requires rest == "" || rest[0] == '?'
    requires OneLine(rest)
    requires k + 7 < |body| == TextEnd(body, k + 7)
    ensures TextAfter(body + rest, BLOBS, k) == TextAfter(body, BLOBS, k)
    ensures EndMatches(body + rest, k + 7)
  {
    var s := body + rest;
    assert forall i | 0 <= i < |body| :: s[i] == body[i];
    assert forall i | |body| <= i < |s| :: s[i] == rest[i - |body|];
    TextEndAt(s, k + 7, |body|);
    assert s[k + 7..|body|] == body[k + 7..|body|];
  }

  /**
   A manifest url reads as a blob url exactly when its query has a usable marker for blobs
   or its repository names blobs.
   */
  lemma ManifestReadsAsBlob(registry: string, repository: string, text: string, query: Option<string>)
    requires OneLine(registry) && '/' !in registry && OneLine(repository) && '?' !in repository
    requires |text| > 0 && '/' !in text && '?' !in text && OneLine(text)
    requires query.Some? ==> OneLine(query.value)
    ensures
      match Captured(WithQuery(BuildUrl(registry, repository, MANIFESTS, text), query), BLOBS)
      case Some(captured) =>
        || QueryCapture(query, BLOBS) == Some(captured)
        || (&& QueryCapture(query, BLOBS).None?
            && NamesBlobs(repository) && '/' in captured && (':' !in repository ==> SlashBeforeColon(captured)))
      case None => QueryCapture(query, BLOBS).None? && !NamesBlobs(repository)
  {
    var body, rest := Front(registry) + (repository + MANIFESTS + text), QueryText(query);
    ManifestText(registry, repository, text, query);
    BodyIsOneLine(registry, repository, text);
    if query.Some? {
      LastInQuery(body + "?", query.value, BLOBS);
      assert body + rest == body + "?" + query.value;
      if QueryCapture(query, BLOBS).Some? {
        BlobMarkerInQuery(registry, repository, text, query.value);
        return;
      }
      MarkerFound(query.value, BLOBS, 0, |query.value|);
    }
    assert forall n: nat | n > |body| :: !Usable(body + rest, BLOBS, n);
    BlobMarkerBeforeQuery(registry, repository, text, rest);
  }

  lemma BlobMarkerInQuery(registry: string, repository: string, text: string, query: string)
    requires OneLine(registry) && OneLine(repository) && OneLine(text) && OneLine(query)
    requires QueryCapture(Some(query), BLOBS).Some?
    ensures Captured(WithQuery(BuildUrl(registry, repository, MANIFESTS, text), Some(query)), BLOBS) == QueryCapture(Some(query), BLOBS)
  {
    var prefix, tail := Front(registry) + (repository + MANIFESTS + text) + "?", MANIFESTS + text + ("?" + query);
    ManifestText(registry, repository, text, Some(query));
    BodyIsOneLine(registry, repository, text);
    var last := QueryDecides(prefix, query, BLOBS);
    assert prefix + query == Front(registry) + (repository + MANIFESTS + text) + ("?" + query);
    HeadIsReachable(registry, repository, tail, last);
    GreedyMatchEndsOnLastMarker(prefix + query, BLOBS, last);
  }

  /** Without a usable marker in the query, the repository decides. */
  lemma BlobMarkerBeforeQuery(registry: string, repository: string, text: string, rest: string)
    requires OneLine(registry) && '/' !in registry && OneLine(repository) && '?' !in repository
    requires '/' !in text && '?' !in text && OneLine(text) && OneLine(rest)
    requires rest == "" || rest[0] == '?'
    requires
      var body := Front(registry) + (repository + MANIFESTS + text);
      forall n: nat | n > |body| :: !Usable(body + rest, BLOBS, n)
    ensures
      match Captured(Front(registry) + (repository + MANIFESTS + text) + rest, BLOBS)
      case Some(captured) => NamesBlobs(repository) && '/' in captured && (':' !in repository ==> SlashBeforeColon(captured))
      case None => !NamesBlobs(repository)
  {
    var front, body := Front(registry), Front(registry) + (repository + MANIFESTS + text);
    var url := body + rest;
    SchemeFound(url, BLOBS, |url|);
    match MatchScheme(url, BLOBS, |url|)
    case Some(k) =>
      Regroup(front, repository, MANIFESTS, text, rest);
      RepositoryIsFirst(registry, repository, MANIFESTS + text + rest, k);
      MarkerBeforeQuery(body, rest, k);
      SlashAfterMarker(front, repository, text, k);
      TextBeforeQuery(body, rest, k);
    case None =>
      forall t: nat ensures !At(repository + "/", t, BLOBS) {
        if At(repository + "/", t, BLOBS) {
          ReadsAsBlob(registry, repository, text, rest, t);
        }
      }
  }

  lemma UsableInRepository(front: string, repository: string, text: string, rest: string, t: nat)
    requires OneLine(front) && OneLine(repository) && OneLine(text) && OneLine(rest)
    requires '?' !in repository && '?' !in text && '/' !in text
    requires rest == "" || rest[0] == '?'
    requires At(repository + "/", t, BLOBS)
    ensures Usable(front + (repository + MANIFESTS + text) + rest, BLOBS, |front| + t)
  {
    var tail, k := repository + MANIFESTS + text, |front| + t;
    var body := front + tail;
    BlobMarkerInRepository(repository, text, t);
    assert body[k..k + 7] == tail[t..t + 7];
    SlashAfterMarker(front, repository, text, k);
    MarkerBeforeQuery(body, rest, k);
    TextBeforeQuery(body, rest, k);
    assert forall i | 0 <= i < k :: (body + rest)[i] == body[i];
  }

  lemma ReadsAsBlob(registry: string, repository: string, text: string, rest: string, t: nat)
    requires OneLine(registry) && OneLine(repository) && OneLine(text) && OneLine(rest)
    requires '?' !in repository && '?' !in text && '/' !in text
    requires rest == "" || rest[0] == '?'
    requires At(repository + "/", t, BLOBS)
    ensures
      var url := Front(registry) + (repository + MANIFESTS + text) + rest;
      MatchScheme(url, BLOBS, |url|).Some?
  {
    var front, tail := Front(registry), repository + MANIFESTS + text;
    UsableInRepository(front, repository, text, rest, t);
    assert front + tail + rest == front + (tail + rest);
    FrontStarts(registry, tail + rest);
    MatchesFrom(front + tail + rest, BLOBS, 5, |front| - 4, |front| + t);
  }

  lemma MatchesFrom(s: string, marker: string, i: nat, j: nat, k: nat)
    requires At(s, i, SCHEME_END) && i + |SCHEME_END| <= j && At(s, j, V2) && j + |V2| <= k && Usable(s, marker, k)
    ensures MatchScheme(s, marker, |s|).Some?
  {
    SchemeFound(s, marker, |s|);
  }

  lemma FrontStarts(registry: string, rest: string)
    ensures At(Front(registry) + rest, 5, SCHEME_END) && At(Front(registry) + rest, |Front(registry)| - 4, V2)
  {
    var s, n := Front(registry) + rest, |Front(registry)|;
    assert s[5..8] == SCHEME_END && s[n - 4..n] == V2;
  }

  /**
   The task id of a manifest url. A usable marker for blobs in the query decides first, then
   one in the repository: then, without a colon in the repository, there is no task id. Next a
   usable marker for manifests in the query decides; else the task id is the digest's hash.
   */
  lemma ManifestTaskId(
      registry: string, repository: string, digest: Digest, query: Option<string>,
      hash: string -> string, urlBased: string -> Result<string, Error>)
    requires OneLine(registry) && '/' !in registry && OneLine(repository) && '?' !in repository && PathDigest(digest)
    requires query.Some? ==> OneLine(query.value)
    ensures
      var url := WithQuery(BuildUrl(registry, repository, MANIFESTS, Display(digest)), query);
      var id := TaskId(Dispatch(url, None, true), hash, urlBased);
      match QueryCapture(query, BLOBS)
      case Some(text) => id == EncodedText(text, url)
      case None =>
        if NamesBlobs(repository) then id != Ok(digest.encoded) && (':' !in repository ==> id == Err(InvalidArgument(url)))
        else
          match QueryCapture(query, MANIFESTS)
          case Some(text) => id == if Parse(text).Some? then Ok(Parse(text).value.encoded) else urlBased(url)
          case None => id == Ok(digest.encoded)
  {
    var url := WithQuery(BuildUrl(registry, repository, MANIFESTS, Display(digest)), query);
    DisplayText(digest);
    ManifestReadsAsBlob(registry, repository, Display(digest), query);
    CapturedFromBuilt(registry, repository, MANIFESTS, Display(digest), query);
    TaskIdOfTexts(url, hash, urlBased);
    if Captured(url, BLOBS).Some? && QueryCapture(query, BLOBS).None? {
      OtherText(repository, Captured(url, BLOBS).value, digest, url);
    }
  }

  lemma OtherText(repository: string, captured: string, digest: Digest, url: string)
    requires PathDigest(digest) && '/' in captured
    requires ':' !in repository ==> SlashBeforeColon(captured)
    ensures EncodedText(captured, url) != Ok(digest.encoded)
    ensures ':' !in repository ==> Parse(captured) == None
  {
    if Parse(captured).Some? {
      var other := Parse(captured).value;
      ParsesExactlyDisplays(captured, other);
      SlashIsEncoded(other);
    }
    if ':' !in repository {
      SlashBeforeColonIsNoDigest(captured);
    }
  }

  /** So without a query the task id is the digest's hash exactly when the repository does not name blobs. */
  lemma ManifestTaskIdWithoutQuery(
      registry: string, repository: string, digest: Digest,
      hash: string -> string, urlBased: string -> Result<string, Error>)
    requires OneLine(registry) && '/' !in registry && OneLine(repository) && '?' !in repository && PathDigest(digest)
    ensures
      var url := BuildUrl(registry, repository, MANIFESTS, Display(digest));
      && (TaskId(Dispatch(url, None, true), hash, urlBased) == Ok(digest.encoded) <==> !NamesBlobs(repository))
      && (NamesBlobs(repository) && ':' !in repository ==> TaskId(Dispatch(url, None, true), hash, urlBased) == Err(InvalidArgument(url)))
  {
    ManifestTaskId(registry, repository, digest, None, hash, urlBased);
  }

  lemma SlashIsEncoded(digest: Digest)
    requires '/' in Display(digest)
    ensures '/' in digest.encoded
  {
    assert '/' !in AlgorithmText(digest.algorithm);
  }

  /** For a repository that does, the preheat of its manifest has no task id. */
  lemma BlobsRepositoryHasNoManifestTask(digest: Digest, hash: string -> string, urlBased: string -> Result<string, Error>)
    requires PathDigest(digest)
    ensures
      var url := BuildUrl("registry.example.com", "tools/blobs/reader", MANIFESTS, Display(digest));
      TaskId(Dispatch(url, None, true), hash, urlBased) == Err(InvalidArgument(url))
  {
    var repository := "tools/blobs/reader";
    assert (repository + "/")[5..12] == BLOBS;
    assert At(repository + "/", 5, BLOBS);
    ManifestTaskId("registry.example.com", repository, digest, None, hash, urlBased);
  }
}
