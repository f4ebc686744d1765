/**
 The canonical form of a url: the query in canonical form and everything else as the url
 library reads it. The library reads an empty path as "/" where the scheme needs one, so
 the path is dropped again when the text as given seems to have none.
 */
module CanonicalUrl {
  import opened Results
  import opened Bytes
  import opened FormUrlencoded
  import opened KeyOrder
  import opened CanonicalQuery

  /** A parsed url; `before` is its text up to the path. */
  datatype Url = Url(before: bytes, path: bytes, query: Option<bytes>, fragment: Option<bytes>)

  /** The url library: how it reads a text, and the path it reads where nothing follows `before`. */
  datatype Parser = Parser(parse: bytes -> Option<Url>, emptyPath: bytes -> bytes)

  datatype Error = InvalidArgument

  const SEPARATOR: bytes := [COLON, SLASH, SLASH]

  function FragmentText(fragment: Option<bytes>): bytes {
    if fragment.Some? then [HASH] + fragment.value else []
  }

  function SuffixText(query: Option<bytes>, fragment: Option<bytes>): bytes {
    if query.Some? then [QUESTION] + (query.value + FragmentText(fragment)) else FragmentText(fragment)
  }

  /** The url after its path. */
  function AfterPath(url: Url): bytes {
    SuffixText(url.query, url.fragment)
  }

  function Print(url: Url): bytes {
    url.before + (url.path + AfterPath(url))
  }

  /** What is printed for the url with another query reads as that, with its path and without. */
  ghost predicate ReadsBack(parser: Parser, url: Url, query: Option<bytes>) {
    && parser.parse(Print(url.(query := query))) == Some(url.(query := query))
    && parser.parse(Print(url.(path := [], query := query))) == Some(url.(path := parser.emptyPath(url.before), query := query))
  }

  ghost predicate QueryReadsBack(parser: Parser, s: bytes, query: Option<bytes>) {
    parser.parse(s).Some? && (query.Some? ==> Serial(query.value, {EQUALS, AMPERSAND})) ==>
      ReadsBack(parser, parser.parse(s).value, query)
  }

  /** The library assumption at a text: whatever it changed in reading it, it reads its own text as is. */
  ghost predicate ReadsBackAt(parser: Parser, s: bytes) {
    forall query :: QueryReadsBack(parser, s, query)
  }

  ghost predicate Normalizes(parser: Parser) {
    forall s :: ReadsBackAt(parser, s)
  }

  /** The text after the first "://". */
  function AfterSeparator(s: bytes): Option<bytes> {
    match Find(s, SEPARATOR)
    case None => None
    case Some(i) => Some(s[i + 3..])
  }

  predicate NoSlashBeforeQuery(s: bytes) {
    SLASH !in s[..Cut(s, {QUESTION, HASH})]
  }

  /** Whether there is no slash between the first "://" and the query or fragment. */
  predicate HasEmptyPath(s: bytes) {
    var rest := AfterSeparator(s);
    rest.Some? && NoSlashBeforeQuery(rest.value)
  }

  function FilterQueryParams(parser: Parser, s: bytes, filters: seq<bytes>, lossy: bytes -> bytes): Result<bytes, Error> {
    if filters == [] then Ok(s) else
      match parser.parse(s)
      case None => Err(InvalidArgument)
      case Some(url) =>
        var canonical := url.(query := Canonical(url.query, filters, lossy));
        if HasEmptyPath(s) then Ok(canonical.before + AfterPath(canonical)) else Ok(Print(canonical))
  }

  /** Without filters nothing is read and nothing changes; with filters, what does not parse fails, and nothing else. */
  lemma FailsExactlyUnparsed(parser: Parser, s: bytes, filters: seq<bytes>, lossy: bytes -> bytes)
    ensures filters == [] ==> FilterQueryParams(parser, s, filters, lossy) == Ok(s)
    ensures FilterQueryParams(parser, s, filters, lossy) == Err(InvalidArgument) <==> filters != [] && parser.parse(s) == None
  {
  }

  ghost predicate SeparatorAt(s: bytes, i: nat) {
    i + 3 <= |s| && s[i] as char == ':' && s[i + 1] as char == '/' && s[i + 2] as char == '/'
  }

  ghost predicate FirstSeparatorAt(s: bytes, i: nat) {
    SeparatorAt(s, i) && forall j: nat | j < i :: !SeparatorAt(s, j)
  }

  ghost predicate Unslashed(s: bytes, i: nat) {
    exists end: nat :: EndsUnslashed(s, i, end)
  }

  /** The text from `i` on has no slash before its end, a question mark or a hash. */
  ghost predicate EndsUnslashed(s: bytes, i: nat, end: nat) {
    && i <= end <= |s|
    && (end < |s| ==> s[end] as char == '?' || s[end] as char == '#')
    && forall k | i <= k < end :: s[k] as char != '/' && s[k] as char != '?' && s[k] as char != '#'
  }

  lemma {:induction false} FindIsFirst(s: bytes)
    ensures
      match Find(s, SEPARATOR)
      case Some(i) => SeparatorAt(s, i) && forall j: nat | j < i :: !SeparatorAt(s, j)
      case None => forall j: nat :: !SeparatorAt(s, j)
  {
    if |s| >= 3 {
      assert s[..3] == [s[0], s[1], s[2]];
      if s[..3] != SEPARATOR {
        FindIsFirst(s[1..]);
        forall j: nat ensures SeparatorAt(s, j) <==> j > 0 && SeparatorAt(s[1..], j - 1) {
        }
      }
    }
  }

  /** What the test for an empty path finds, character by character. */
  lemma EmptyPathMeans(s: bytes)
    ensures
      HasEmptyPath(s) <==> exists i: nat :: FirstSeparatorAt(s, i) && Unslashed(s, i + 3)
  {
    FindIsFirst(s);
    match Find(s, SEPARATOR)
    case None =>
    case Some(i) =>
      CutIsEnd(s, i + 3);
      assert FirstSeparatorAt(s, i);
  }

  lemma CutIsEnd(s: bytes, i: nat)
    requires i <= |s|
    ensures NoSlashBeforeQuery(s[i..]) <==> Unslashed(s, i)
  {
    var rest := s[i..];
    var n := Cut(rest, {QUESTION, HASH});
    assert forall k | i <= k < |s| :: s[k] == rest[k - i];
    assert rest[..n] == s[i..i + n];
    assert forall k | i <= k < i + n :: s[k] == rest[..n][k - i];
    forall end: nat | EndsUnslashed(s, i, end) ensures end == i + n {
      assert i + n < |s| ==> s[i + n] == rest[n];
    }
    if SLASH !in rest[..n] {
      assert forall k | i <= k < i + n :: s[k] == rest[..n][k - i];
      assert EndsUnslashed(s, i, i + n);
    } else {
      var k :| 0 <= k < n && rest[..n][k] == SLASH;
      assert s[i + k] == SLASH;
    }
  }

  // ---------- What the canonical url reads as ----------

  /** The path left in the canonical form of `s`. */
  function KeptPath(s: bytes, path: bytes): bytes {
    if HasEmptyPath(s) then [] else path
  }

  lemma CanonicalText(parser: Parser, s: bytes, filters: seq<bytes>, lossy: bytes -> bytes)
    requires filters != [] && parser.parse(s).Some?
    ensures
      var url := parser.parse(s).value;
      FilterQueryParams(parser, s, filters, lossy) ==
      Ok(Print(url.(path := KeptPath(s, url.path), query := Canonical(url.query, filters, lossy))))
  {
    var url := parser.parse(s).value;
    var after := AfterPath(url.(query := Canonical(url.query, filters, lossy)));
    assert [] + after == after;
  }

  /** A canonical url parses, and to which url. */
  lemma CanonicalReadsBack(parser: Parser, s: bytes, filters: seq<bytes>, lossy: bytes -> bytes)
    requires ReadsBackAt(parser, s) && filters != [] && parser.parse(s).Some?
    ensures
      var url, canonical := parser.parse(s).value, FilterQueryParams(parser, s, filters, lossy);
      && canonical.Ok?
      && parser.parse(canonical.value) == Some(url.(
           path := if HasEmptyPath(s) then parser.emptyPath(url.before) else url.path,
           query := Canonical(url.query, filters, lossy)))
  {
    var url := parser.parse(s).value;
    CanonicalText(parser, s, filters, lossy);
    SerializeIsSerial(StableSort(Unfiltered(PairsOf(url.query, lossy), filters)));
    assert QueryReadsBack(parser, s, Canonical(url.query, filters, lossy));
  }

  lemma SamePath(before: bytes, a: bytes, b: bytes, after: bytes)
    ensures before + (a + after) == before + (b + after) <==> a == b
  {
    var s, t := before + (a + after), before + (b + after);
    if s == t {
      assert a == s[|before|..|before| + |a|];
      assert b == t[|before|..|before| + |b|];
    }
  }

  /**
   Canonicalizing changes the query of the parsed url alone, unless the text seems to have no
   path and the library read one that it would not read where there is none.
   */
  lemma OnlyTheQueryChanges(parser: Parser, s: bytes, filters: seq<bytes>, lossy: bytes -> bytes)
    requires ReadsBackAt(parser, s) && filters != [] && parser.parse(s).Some?
    ensures
      var url, canonical := parser.parse(s).value, FilterQueryParams(parser, s, filters, lossy);
      && canonical.Ok?
      && (parser.parse(canonical.value) == Some(url.(query := Canonical(url.query, filters, lossy)))
          <==> (HasEmptyPath(s) ==> url.path == parser.emptyPath(url.before)))
  {
    CanonicalReadsBack(parser, s, filters, lossy);
  }

  /**
   Two urls have the same canonical form exactly when the library reads them alike up to the
   path and in the fragment, the same path is kept, and every unfiltered key has the same
   values in the same order.
   */
  lemma SameCanonicalUrl(parser: Parser, s: bytes, t: bytes, filters: seq<bytes>, lossy: bytes -> bytes)
    requires ReadsBackAt(parser, s) && ReadsBackAt(parser, t) && Idempotent(lossy) && filters != []
    requires parser.parse(s).Some? && parser.parse(t).Some?
    ensures
      var u, v := parser.parse(s).value, parser.parse(t).value;
      FilterQueryParams(parser, s, filters, lossy) == FilterQueryParams(parser, t, filters, lossy)
      <==>
      && u.before == v.before && u.fragment == v.fragment && KeptPath(s, u.path) == KeptPath(t, v.path)
      && forall key | key !in filters :: Values(PairsOf(u.query, lossy), key) == Values(PairsOf(v.query, lossy), key)
  {
    var u, v := parser.parse(s).value, parser.parse(t).value;
    CanonicalText(parser, s, filters, lossy);
    CanonicalText(parser, t, filters, lossy);
    CanonicalReadsBack(parser, s, filters, lossy);
    CanonicalReadsBack(parser, t, filters, lossy);
    SamePath(u.before, KeptPath(s, u.path), KeptPath(t, v.path), SuffixText(Canonical(u.query, filters, lossy), u.fragment));
    CanonicalIsExact(u.query, v.query, filters, lossy);
  }

  // ---------- The canonical query never shows in the test ----------

  /** Where the separator is, when the text after `a` cannot continue one. */
  lemma {:induction false} FindConcat(a: bytes, b: bytes)
    requires b == [] || b[0] !in SEPARATOR
    ensures
      Find(a + b, SEPARATOR) ==
      match Find(a, SEPARATOR)
      case Some(i) => Some(i)
      case None => match Find(b, SEPARATOR) case None => None case Some(j) => Some(|a| + j)
  {
    var s := a + b;
    if a == [] {
      assert s == b;
    } else {
      assert s[1..] == a[1..] + b;
      FindConcat(a[1..], b);
      if |a| >= 3 {
        assert s[..3] == a[..3];
      } else if |s| >= 3 {
        assert s[..3][|a|] == b[0];
      }
    }
  }

  /** What is before the first stop stays when a stop or nothing is appended. */
  lemma {:induction false} CutConcat(a: bytes, b: bytes, stops: set<byte>)
    requires b == [] || b[0] in stops
    ensures (a + b)[..Cut(a + b, stops)] == a[..Cut(a, stops)]
  {
    if a == [] {
      assert a + b == b;
    } else if a[0] !in stops {
      assert (a + b)[1..] == a[1..] + b;
      CutConcat(a[1..], b, stops);
    }
  }

  lemma DropConcat(a: bytes, b: bytes, n: nat)
    ensures n <= |a| ==> (a + b)[n..] == a[n..] + b
    ensures n <= |b| ==> (a + b)[|a| + n..] == b[n..]
  {
  }

  lemma AfterSeparatorOfConcat(front: bytes, after: bytes)
    requires after == [] || after[0] in {QUESTION, HASH}
    ensures
      AfterSeparator(front + after) ==
      match AfterSeparator(front)
      case Some(rest) => Some(rest + after)
      case None => AfterSeparator(after)
  {
    FindConcat(front, after);
    match Find(front, SEPARATOR)
    case Some(i) => DropConcat(front, after, i + 3);
    case None =>
      match Find(after, SEPARATOR)
      case Some(j) => DropConcat(front, after, j + 3);
      case None =>
  }

  lemma NoSlashOfConcat(a: bytes, b: bytes)
    requires b == [] || b[0] in {QUESTION, HASH}
    ensures NoSlashBeforeQuery(a + b) <==> NoSlashBeforeQuery(a)
  {
    CutConcat(a, b, {QUESTION, HASH});
  }

  /** The test on a text with a query or fragment after it looks at the text, or else at what is after it. */
  lemma TestOfConcat(front: bytes, after: bytes)
    requires after == [] || after[0] in {QUESTION, HASH}
    ensures HasEmptyPath(front + after) <==> if AfterSeparator(front).Some? then HasEmptyPath(front) else HasEmptyPath(after)
  {
    AfterSeparatorOfConcat(front, after);
    if AfterSeparator(front).Some? {
      NoSlashOfConcat(AfterSeparator(front).value, after);
    }
  }

  lemma {:induction false} NoColonNoSeparator(s: bytes)
    requires COLON !in s
    ensures Find(s, SEPARATOR) == None
  {
    if |s| >= 3 {
      assert s[..3][0] == s[0];
      NoColonNoSeparator(s[1..]);
    }
  }

  /** A canonical query, put in, leaves the test as it is. */
  lemma QueryIsNotTested(front: bytes, query: Option<bytes>, fragment: Option<bytes>)
    requires query.Some? ==> Serial(query.value, {EQUALS, AMPERSAND})
    ensures HasEmptyPath(front + SuffixText(query, fragment)) <==> HasEmptyPath(front + FragmentText(fragment))
  {
    TestOfConcat(front, FragmentText(fragment));
    if query.Some? {
      var text := [QUESTION] + query.value;
      TestOfConcat(front, SuffixText(query, fragment));
      assert SuffixText(query, fragment) == text + FragmentText(fragment);
      NoColonNoSeparator(text);
      TestOfConcat(text, FragmentText(fragment));
    }
  }

  lemma CanonicalTest(url: Url, filters: seq<bytes>, lossy: bytes -> bytes)
    ensures
      HasEmptyPath(Print(url.(query := Canonical(url.query, filters, lossy)))) <==> HasEmptyPath(Print(url.(query := None)))
  {
    var query, front := Canonical(url.query, filters, lossy), url.before + url.path;
    SerializeIsSerial(StableSort(Unfiltered(PairsOf(url.query, lossy), filters)));
    QueryIsNotTested(front, query, url.fragment);
    PrintedFront(url.(query := query));
    PrintedFront(url.(query := None));
  }

  lemma PrintedFront(url: Url)
    ensures Print(url) == url.before + url.path + SuffixText(url.query, url.fragment)
  {
  }

  /**
   A canonical url is its own canonical form exactly when the parsed url, without its query
   and with the path kept, still shows whether the path was kept.
   */
  lemma FilterIsIdempotent(parser: Parser, s: bytes, filters: seq<bytes>, lossy: bytes -> bytes)
    requires ReadsBackAt(parser, s) && Idempotent(lossy) && filters != [] && parser.parse(s).Some?
    ensures
      var url, canonical := parser.parse(s).value, FilterQueryParams(parser, s, filters, lossy);
      var bare := HasEmptyPath(Print(url.(path := KeptPath(s, url.path), query := None)));
      && canonical.Ok?
      && (FilterQueryParams(parser, canonical.value, filters, lossy) == canonical
          <==>
          if HasEmptyPath(s) then bare || parser.emptyPath(url.before) == []
          else !bare || url.path == [])
  {
    var url := parser.parse(s).value;
    CanonicalText(parser, s, filters, lossy);
    CanonicalReadsBack(parser, s, filters, lossy);
    CanonicalTest(url.(path := KeptPath(s, url.path)), filters, lossy);
    var t := FilterQueryParams(parser, s, filters, lossy).value;
    CanonicalText(parser, t, filters, lossy);
    CanonicalIsIdempotent(url.query, filters, lossy);
    var read := parser.parse(t).value;
    SamePath(url.before, KeptPath(s, url.path), KeptPath(t, read.path), SuffixText(read.query, url.fragment));
  }

  // ---------- Urls with an authority ----------

  /** `url` is `scheme`, "://", `authority` and a path that is empty or starts with a slash. */
  ghost predicate HasAuthority(url: Url, scheme: bytes, authority: bytes) {
    && url.before == scheme + SEPARATOR + authority
    && Free(scheme, {COLON, SLASH, QUESTION, HASH}) && Free(authority, {SLASH, QUESTION, HASH})
    && (url.path == [] || url.path[0] == SLASH) && Free(url.path, {QUESTION, HASH})
  }

  lemma {:induction false} SeparatorIsFirst(s: bytes, i: nat)
    requires i + 3 <= |s| && s[i..i + 3] == SEPARATOR
    requires forall j | 0 < j <= i :: s[j] != SLASH
    ensures Find(s, SEPARATOR) == Some(i)
  {
    if i > 0 {
      assert s[..3][1] == s[1];
      assert s[1..][i - 1..i + 2] == s[i..i + 3];
      SeparatorIsFirst(s[1..], i - 1);
    } else {
      assert s[..3] == s[0..3];
    }
  }

  /** What the test looks at: the text after the first separator, up to the query or fragment. */
  lemma TestedText(front: bytes, host: bytes, after: bytes)
    requires SLASH !in front && Free(host, {QUESTION, HASH})
    requires after == [] || after[0] in {QUESTION, HASH}
    ensures HasEmptyPath(front + SEPARATOR + (host + after)) <==> SLASH !in host
  {
    var s, rest := front + SEPARATOR + (host + after), host + after;
    assert s[|front|..|front| + 3] == SEPARATOR && s[|front| + 3..] == rest;
    SeparatorIsFirst(s, |front|);
    CutAt(host, after, {QUESTION, HASH});
    assert rest[..|host|] == host;
  }

  lemma AuthorityText(url: Url, scheme: bytes, authority: bytes)
    requires HasAuthority(url, scheme, authority)
    ensures
      var s, i, rest := Print(url), |scheme|, (authority + url.path) + AfterPath(url);
      && s == scheme + SEPARATOR + rest
      && i + 3 <= |s| && s[..i] == scheme && s[i..i + 3] == SEPARATOR && s[i + 3..] == rest
  {
  }

  /** The test on the text of such a url finds an empty path exactly when it has one. */
  lemma EmptyPathIsSeen(url: Url, scheme: bytes, authority: bytes)
    requires HasAuthority(url, scheme, authority)
    ensures HasEmptyPath(Print(url)) <==> url.path == []
  {
    var host := authority + url.path;
    AuthorityText(url, scheme, authority);
    TestedText(scheme, host, AfterPath(url));
    assert url.path != [] ==> host[|authority|] == SLASH;
  }

  /** A canonical url with an authority is its own canonical form, whatever text it came from. */
  lemma AuthorityIsIdempotent(
      parser: Parser, s: bytes, filters: seq<bytes>, lossy: bytes -> bytes, scheme: bytes, authority: bytes)
    requires ReadsBackAt(parser, s) && Idempotent(lossy) && filters != []
    requires parser.parse(s).Some? && HasAuthority(parser.parse(s).value, scheme, authority)
    ensures
      var canonical := FilterQueryParams(parser, s, filters, lossy);
      canonical.Ok? && FilterQueryParams(parser, canonical.value, filters, lossy) == canonical
  {
    var url := parser.parse(s).value;
    EmptyPathIsSeen(url.(path := KeptPath(s, url.path), query := None), scheme, authority);
    FilterIsIdempotent(parser, s, filters, lossy);
  }

  // ---------- Where the path is lost ----------

  /** Nothing is left of a query that is absent or one segment with a semicolon. */
  lemma NoPairs(query: Option<bytes>, filters: seq<bytes>, lossy: bytes -> bytes)
    requires query.Some? ==> AMPERSAND !in query.value && SEMICOLON in query.value
    ensures Canonical(query, filters, lossy) == None
  {
    ParseSerialize([], lossy);
    if query.Some? {
      ParseOne(query.value, lossy);
    }
  }

  /**
   Web schemes read a backslash as a slash, and the test for an empty path does not: every
   path of one segment written so is lost, and all of them get one canonical url.
   */
  lemma BackslashPathIsLost(
      parser: Parser, scheme: bytes, authority: bytes, segment: bytes, filters: seq<bytes>, lossy: bytes -> bytes)
    requires SLASH !in scheme && Free(authority + [BACKSLASH] + segment, {SLASH, QUESTION, HASH})
    requires filters != []
    requires
      var before := scheme + SEPARATOR + authority;
      parser.parse(before + [BACKSLASH] + segment) == Some(Url(before, [SLASH] + segment, None, None))
    ensures
      var before := scheme + SEPARATOR + authority;
      FilterQueryParams(parser, before + [BACKSLASH] + segment, filters, lossy) == Ok(before)
  {
    var before, rest := scheme + SEPARATOR + authority, authority + [BACKSLASH] + segment;
    assert before + [BACKSLASH] + segment == scheme + SEPARATOR + (rest + []);
    TestedText(scheme, rest, []);
    NoPairs(None, filters, lossy);
    assert before + [] == before;
  }

  /** The query and the fragment of the url m:a?:///;#:// */
  const LATE_QUERY: bytes := SEPARATOR + [SLASH, SEMICOLON]
  const LATE_FRAGMENT: bytes := SEPARATOR

  lemma LateTexts(before: bytes, path: bytes)
    requires SLASH !in before && SLASH !in path
    ensures !HasEmptyPath(Print(Url(before, path, Some(LATE_QUERY), Some(LATE_FRAGMENT))))
    ensures HasEmptyPath(Print(Url(before, path, None, Some(LATE_FRAGMENT))))
  {
    var host, after := [SLASH, SEMICOLON], [HASH] + LATE_FRAGMENT;
    TestedText(before + path + [QUESTION], host, after);
    LateText(before, path, host, after);
    TestedText(before + path + [HASH], [], []);
    assert before + (path + ([HASH] + SEPARATOR)) == before + path + [HASH] + SEPARATOR + ([] + []);
  }

  lemma LateText(before: bytes, path: bytes, host: bytes, after: bytes)
    ensures before + (path + ([QUESTION] + ((SEPARATOR + host) + after))) == before + path + [QUESTION] + SEPARATOR + (host + after)
  {
  }

  /** A url without an authority, such as m:a?:///;#://, whose path is lost the second time. */
  lemma PathIsLostLater(parser: Parser, before: bytes, path: bytes, filters: seq<bytes>, lossy: bytes -> bytes)
    requires filters != [] && SLASH !in before && SLASH !in path
    requires
      var url := Url(before, path, Some(LATE_QUERY), Some(LATE_FRAGMENT));
      parser.parse(Print(url)) == Some(url) && ReadsBackAt(parser, Print(url))
    ensures
      var url := Url(before, path, Some(LATE_QUERY), Some(LATE_FRAGMENT));
      var canonical := FilterQueryParams(parser, Print(url), filters, lossy);
      && canonical == Ok(Print(url.(query := None)))
      && FilterQueryParams(parser, canonical.value, filters, lossy) == Ok(Print(url.(path := [], query := None)))
  {
    var url := Url(before, path, Some(LATE_QUERY), Some(LATE_FRAGMENT));
    LateTexts(before, path);
    assert LATE_QUERY[4] == SEMICOLON;
    NoPairs(url.query, filters, lossy);
    NoPairs(None, filters, lossy);
    CanonicalText(parser, Print(url), filters, lossy);
    CanonicalReadsBack(parser, Print(url), filters, lossy);
    CanonicalText(parser, Print(url.(query := None)), filters, lossy);
  }

  // ---------- A library that meets the assumption and loses paths ----------

  function ParseFragment(s: bytes): Option<bytes> {
    if s == [] then None else Some(s[1..])
  }

  function ParseSuffix(s: bytes): (Option<bytes>, Option<bytes>) {
    if s != [] && s[0] == QUESTION then
      var rest := s[1..];
      var n := Cut(rest, {HASH});
      (Some(rest[..n]), ParseFragment(rest[n..]))
    else (None, ParseFragment(s))
  }

  /** The url that ends in `s`, which starts with the path. */
  function ParsePath(before: bytes, s: bytes): Url {
    var p := Cut(s, {QUESTION, HASH});
    var (query, fragment) := ParseSuffix(s[p..]);
    Url(before, s[..p], query, fragment)
  }

  function WithSlashes(path: bytes): bytes {
    seq(|path|, i requires 0 <= i < |path| => if path[i] == BACKSLASH then SLASH else path[i])
  }

  /** The path after an authority, backslashes read as slashes and none as "/". */
  function WebPath(path: bytes): bytes {
    if path == [] then [SLASH] else WithSlashes(path)
  }

  /** The url that ends in `s`, which starts with the authority. */
  function ParseAuthority(scheme: bytes, s: bytes): Url {
    var n := Cut(s, {SLASH, BACKSLASH, QUESTION, HASH});
    var url := ParsePath(scheme + SEPARATOR + s[..n], s[n..]);
    url.(path := WebPath(url.path))
  }

  /** A url after its scheme: with an authority after "://", else with a path as written. */
  function Parts(s: bytes): Option<Url> {
    var i := Cut(s, {COLON, SLASH, QUESTION, HASH});
    if i + 3 <= |s| && s[i..i + 3] == SEPARATOR then Some(ParseAuthority(s[..i], s[i + 3..]))
    else if i < |s| && s[i] == COLON then Some(ParsePath(s[..i] + [COLON], s[i + 1..]))
    else None
  }

  ghost predicate ReadsParts(parser: Parser) {
    && (forall s :: parser.parse(s) == Parts(s))
    && (forall before :: parser.emptyPath(before) == if SLASH in before then [SLASH] else [])
  }

  /** A url with an authority as it is after reading, but for its path if that is empty. */
  ghost predicate IsWeb(url: Url, scheme: bytes, authority: bytes) {
    HasAuthority(url, scheme, authority) && BACKSLASH !in authority && BACKSLASH !in url.path
  }

  /** A url without an authority. */
  ghost predicate IsOpaque(url: Url, scheme: bytes) {
    && url.before == scheme + [COLON] && Free(scheme, {COLON, SLASH, QUESTION, HASH})
    && Free(url.path, {QUESTION, HASH}) && (|url.path| < 2 || url.path[0] != SLASH || url.path[1] != SLASH)
  }

  lemma SuffixParses(query: Option<bytes>, fragment: Option<bytes>)
    requires query.Some? ==> Free(query.value, {HASH})
    ensures ParseSuffix(SuffixText(query, fragment)) == (query, fragment)
  {
    var tail := FragmentText(fragment);
    assert fragment.Some? ==> tail[1..] == fragment.value;
    if query.Some? {
      var rest := query.value + tail;
      assert ([QUESTION] + rest)[1..] == rest;
      CutAt(query.value, tail, {HASH});
      assert rest[..|query.value|] == query.value && rest[|query.value|..] == tail;
    }
  }

  lemma PathParses(url: Url)
    requires Free(url.path, {QUESTION, HASH}) && (url.query.Some? ==> Free(url.query.value, {HASH}))
    ensures ParsePath(url.before, url.path + AfterPath(url)) == url
  {
    var rest := url.path + AfterPath(url);
    CutAt(url.path, AfterPath(url), {QUESTION, HASH});
    assert rest[..|url.path|] == url.path && rest[|url.path|..] == AfterPath(url);
    SuffixParses(url.query, url.fragment);
  }

  lemma SchemeParses(scheme: bytes, rest: bytes)
    requires Free(scheme, {COLON, SLASH, QUESTION, HASH})
    requires rest != [] && rest[0] == COLON
    ensures
      Parts(scheme + rest) == Some(
        if SEPARATOR <= rest then ParseAuthority(scheme, rest[3..]) else ParsePath(scheme + [COLON], rest[1..]))
  {
    CutAt(scheme, rest, {COLON, SLASH, QUESTION, HASH});
    SchemeSlices(scheme, rest);
  }

  lemma SchemeSlices(scheme: bytes, rest: bytes)
    requires rest != []
    ensures
      var s, i := scheme + rest, |scheme|;
      && s[..i] == scheme && s[i] == rest[0] && s[i + 1..] == rest[1..]
      && (|rest| >= 3 ==> s[i..i + 3] == rest[..3] && s[i + 3..] == rest[3..])
  {
  }

  lemma AuthorityParses(scheme: bytes, authority: bytes, url: Url)
    requires url.before == scheme + SEPARATOR + authority && Free(authority, {SLASH, BACKSLASH, QUESTION, HASH})
    requires url.path == [] || url.path[0] in {SLASH, BACKSLASH}
    requires Free(url.path, {QUESTION, HASH}) && (url.query.Some? ==> Free(url.query.value, {HASH}))
    ensures ParseAuthority(scheme, authority + (url.path + AfterPath(url))) == url.(path := WebPath(url.path))
  {
    var rest := url.path + AfterPath(url);
    CutAt(authority, rest, {SLASH, BACKSLASH, QUESTION, HASH});
    assert (authority + rest)[..|authority|] == authority && (authority + rest)[|authority|..] == rest;
    PathParses(url);
  }

  /** How a url with an authority reads whose path starts with either slash. */
  lemma WebParses(scheme: bytes, authority: bytes, url: Url)
    requires Free(scheme, {COLON, SLASH, QUESTION, HASH})
    requires url.before == scheme + SEPARATOR + authority && Free(authority, {SLASH, BACKSLASH, QUESTION, HASH})
    requires url.path == [] || url.path[0] in {SLASH, BACKSLASH}
    requires Free(url.path, {QUESTION, HASH}) && (url.query.Some? ==> Free(url.query.value, {HASH}))
    ensures Parts(Print(url)) == Some(url.(path := WebPath(url.path)))
  {
    var rest := SEPARATOR + (authority + (url.path + AfterPath(url)));
    assert Print(url) == scheme + rest;
    assert rest[3..] == authority + (url.path + AfterPath(url));
    SchemeParses(scheme, rest);
    AuthorityParses(scheme, authority, url);
  }

  lemma WebReadsBack(url: Url, scheme: bytes, authority: bytes)
    requires IsWeb(url, scheme, authority) && (url.query.Some? ==> Free(url.query.value, {HASH}))
    ensures Parts(Print(url)) == Some(url.(path := if url.path == [] then [SLASH] else url.path))
  {
    WebParses(scheme, authority, url);
    assert WithSlashes(url.path) == url.path;
  }

  lemma OpaqueReadsBack(url: Url, scheme: bytes)
    requires IsOpaque(url, scheme) && (url.query.Some? ==> Free(url.query.value, {HASH}))
    ensures Parts(Print(url)) == Some(url)
  {
    var after := url.path + AfterPath(url);
    var rest := [COLON] + after;
    assert Print(url) == scheme + rest && rest[1..] == after;
    SchemeParses(scheme, rest);
    assert |rest| >= 3 ==> rest[1] == after[0] && rest[2] == after[1];
    assert |url.path| >= 1 ==> after[0] == url.path[0];
    assert |url.path| >= 2 ==> after[1] == url.path[1];
    PathParses(url);
  }

  lemma AfterCut(s: bytes, stops: set<byte>)
    ensures var rest := s[Cut(s, stops)..]; rest == [] || rest[0] in stops
  {
  }

  lemma ReadPath(s: bytes)
    requires s == [] || s[0] in {SLASH, BACKSLASH, QUESTION, HASH}
    ensures
      var path := WebPath(s[..Cut(s, {QUESTION, HASH})]);
      path != [] && path[0] == SLASH && BACKSLASH !in path && Free(path, {QUESTION, HASH})
  {
    var path := s[..Cut(s, {QUESTION, HASH})];
    assert path != [] ==> path[0] == s[0];
  }

  lemma ParsedAuthority(scheme: bytes, s: bytes) returns (authority: bytes)
    requires Free(scheme, {COLON, SLASH, QUESTION, HASH})
    ensures IsWeb(ParseAuthority(scheme, s), scheme, authority) && ParseAuthority(scheme, s).path != []
  {
    var n := Cut(s, {SLASH, BACKSLASH, QUESTION, HASH});
    authority := s[..n];
    AfterCut(s, {SLASH, BACKSLASH, QUESTION, HASH});
    ReadPath(s[n..]);
    NotInFree(authority);
  }

  lemma NotInFree(s: bytes)
    requires Free(s, {SLASH, BACKSLASH, QUESTION, HASH})
    ensures Free(s, {SLASH, QUESTION, HASH}) && BACKSLASH !in s
  {
  }

  lemma ParsedOpaque(s: bytes, i: nat)
    requires i < |s| && s[i] == COLON && Free(s[..i], {COLON, SLASH, QUESTION, HASH})
    requires !(i + 3 <= |s| && s[i..i + 3] == SEPARATOR)
    ensures IsOpaque(ParsePath(s[..i] + [COLON], s[i + 1..]), s[..i])
  {
    var path := s[i + 1..][..Cut(s[i + 1..], {QUESTION, HASH})];
    if |path| >= 2 {
      assert s[i..i + 3] == [s[i], path[0], path[1]];
    }
  }

  /** What is read has an authority and a path, or no authority. */
  lemma PartsAreWebOrOpaque(s: bytes) returns (scheme: bytes, authority: bytes)
    requires Parts(s).Some?
    ensures
      var url := Parts(s).value;
      (IsWeb(url, scheme, authority) && url.path != []) || IsOpaque(url, scheme)
  {
    var i := Cut(s, {COLON, SLASH, QUESTION, HASH});
    scheme, authority := s[..i], [];
    if i + 3 <= |s| && s[i..i + 3] == SEPARATOR {
      authority := ParsedAuthority(scheme, s[i + 3..]);
    } else {
      ParsedOpaque(s, i);
    }
  }

  lemma SerialHasNoHash(s: bytes)
    requires Serial(s, {EQUALS, AMPERSAND})
    ensures Free(s, {HASH})
  {
  }

  lemma WebQueryReadsBack(parser: Parser, url: Url, scheme: bytes, authority: bytes, query: Option<bytes>)
    requires ReadsParts(parser) && IsWeb(url, scheme, authority) && url.path != []
    requires query.Some? ==> Free(query.value, {HASH})
    ensures ReadsBack(parser, url, query)
  {
    WebReadsBack(url.(query := query), scheme, authority);
    WebReadsBack(url.(path := [], query := query), scheme, authority);
    assert url.before[|scheme| + 1] == SLASH;
  }

  lemma OpaqueQueryReadsBack(parser: Parser, url: Url, scheme: bytes, query: Option<bytes>)
    requires ReadsParts(parser) && IsOpaque(url, scheme)
    requires query.Some? ==> Free(query.value, {HASH})
    ensures ReadsBack(parser, url, query)
  {
    OpaqueReadsBack(url.(query := query), scheme);
    OpaqueReadsBack(url.(path := [], query := query), scheme);
  }

  lemma PartsReadBack(parser: Parser, s: bytes, query: Option<bytes>)
    requires ReadsParts(parser)
    ensures QueryReadsBack(parser, s, query)
  {
    if parser.parse(s).Some? && (query.Some? ==> Serial(query.value, {EQUALS, AMPERSAND})) {
      if query.Some? {
        SerialHasNoHash(query.value);
      }
      var url := parser.parse(s).value;
      var scheme, authority := PartsAreWebOrOpaque(s);
      if IsOpaque(url, scheme) {
        OpaqueQueryReadsBack(parser, url, scheme, query);
      } else {
        WebQueryReadsBack(parser, url, scheme, authority, query);
      }
    }
  }

  /** Reading urls so meets the assumption at every text. */
  lemma PartsNormalize(parser: Parser)
    requires ReadsParts(parser)
    ensures Normalizes(parser)
  {
    forall s ensures ReadsBackAt(parser, s) {
      forall query ensures QueryReadsBack(parser, s, query) {
        PartsReadBack(parser, s, query);
      }
    }
  }

  lemma BackslashText(before: bytes, segment: bytes)
    requires BACKSLASH !in segment
    ensures before + (([BACKSLASH] + segment) + []) == before + [BACKSLASH] + segment
    ensures WithSlashes([BACKSLASH] + segment) == [SLASH] + segment
  {
  }

  lemma BackslashIsRead(scheme: bytes, authority: bytes, segment: bytes)
    requires Free(scheme, {COLON, SLASH, QUESTION, HASH})
    requires Free(authority, {SLASH, BACKSLASH, QUESTION, HASH}) && Free(segment, {SLASH, BACKSLASH, QUESTION, HASH})
    ensures
      var before := scheme + SEPARATOR + authority;
      Parts(before + [BACKSLASH] + segment) == Some(Url(before, [SLASH] + segment, None, None))
  {
    NotInFree(segment);
    BackslashText(scheme + SEPARATOR + authority, segment);
    var url := Url(scheme + SEPARATOR + authority, [BACKSLASH] + segment, None, None);
    WebParses(scheme, authority, url);
  }

  lemma SidesAreFree(authority: bytes, segment: bytes)
    requires Free(authority, {SLASH, BACKSLASH, QUESTION, HASH}) && Free(segment, {SLASH, BACKSLASH, QUESTION, HASH})
    ensures Free(authority + [BACKSLASH] + segment, {SLASH, QUESTION, HASH})
  {
  }

  /** A library that reads a backslash so loses the path: all paths of one segment behind one meet. */
  lemma BackslashPathsMeet(
      parser: Parser, scheme: bytes, authority: bytes, segment: bytes, filters: seq<bytes>, lossy: bytes -> bytes)
    requires Free(scheme, {COLON, SLASH, QUESTION, HASH})
    requires Free(authority, {SLASH, BACKSLASH, QUESTION, HASH}) && Free(segment, {SLASH, BACKSLASH, QUESTION, HASH})
    requires
      var s := scheme + SEPARATOR + authority + [BACKSLASH] + segment;
      filters != [] && parser.parse(s) == Parts(s)
    ensures
      var before := scheme + SEPARATOR + authority;
      && parser.parse(before + [BACKSLASH] + segment) == Some(Url(before, [SLASH] + segment, None, None))
      && FilterQueryParams(parser, before + [BACKSLASH] + segment, filters, lossy) == Ok(before)
  {
    BackslashIsRead(scheme, authority, segment);
    SidesAreFree(authority, segment);
    BackslashPathIsLost(parser, scheme, authority, segment, filters, lossy);
  }

  lemma LateUrlIsRead(scheme: bytes, path: bytes)
    requires Free(scheme, {COLON, SLASH, QUESTION, HASH}) && Free(path, {SLASH, QUESTION, HASH})
    ensures
      var url := Url(scheme + [COLON], path, Some(LATE_QUERY), Some(LATE_FRAGMENT));
      Parts(Print(url)) == Some(url)
  {
    OpaqueReadsBack(Url(scheme + [COLON], path, Some(LATE_QUERY), Some(LATE_FRAGMENT)), scheme);
  }

  /** And a library that reads such a url so, and reads it back, loses its path the second time. */
  lemma OpaquePathIsLostLater(parser: Parser, scheme: bytes, path: bytes, filters: seq<bytes>, lossy: bytes -> bytes)
    requires Free(scheme, {COLON, SLASH, QUESTION, HASH}) && Free(path, {SLASH, QUESTION, HASH}) && path != []
    requires filters != []
    ensures
      var url := Url(scheme + [COLON], path, Some(LATE_QUERY), Some(LATE_FRAGMENT));
      var canonical := FilterQueryParams(parser, Print(url), filters, lossy);
      parser.parse(Print(url)) == Parts(Print(url)) && ReadsBackAt(parser, Print(url)) ==>
        canonical.Ok? && FilterQueryParams(parser, canonical.value, filters, lossy) != canonical
  {
    var url := Url(scheme + [COLON], path, Some(LATE_QUERY), Some(LATE_FRAGMENT));
    LateUrlIsRead(scheme, path);
    if parser.parse(Print(url)) == Some(url) && ReadsBackAt(parser, Print(url)) {
      PathIsLostLater(parser, url.before, path, filters, lossy);
    }
  }
}
