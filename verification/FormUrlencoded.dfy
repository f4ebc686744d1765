/**
 Query pairs as they are escaped into and parsed from a query string, after sections 5.1
 and 5.2 of the WHATWG URL Standard, with the unreserved characters of section 2.3 of
 RFC 3986. `lossy` stands for the lossy decoding of UTF-8, which keeps valid text.
 */
module FormUrlencoded {
  import opened Bytes

  datatype Pair = Pair(key: bytes, value: bytes)

  // ---------- Escaping ----------

  predicate Digit(b: byte) {
    0x30 <= b <= 0x39
  }

  predicate Letter(b: byte) {
    0x41 <= b <= 0x5A || 0x61 <= b <= 0x7A
  }

  predicate Unreserved(b: byte) {
    Digit(b) || Letter(b) || b == HYPHEN || b == DOT || b == UNDERSCORE || b == TILDE
  }

  /** The digit, in upper case from ten on. */
  function HexDigit(n: byte): byte
    requires n < 16
  {
    if n < 10 then 0x30 + n else 0x41 + (n - 10)
  }

  function EscapeByte(b: byte): bytes {
    if Unreserved(b) then [b]
    else if b == SPACE then [PLUS]
    else [PERCENT, HexDigit(b / 16), HexDigit(b % 16)]
  }

  function Escape(s: bytes): bytes {
    if s == [] then [] else EscapeByte(s[0]) + Escape(s[1..])
  }

  lemma {:induction false} EscapeAppend(s: bytes, b: byte)
    ensures Escape(s + [b]) == Escape(s) + EscapeByte(b)
  {
    if s != [] {
      assert (s + [b])[1..] == s[1..] + [b];
      EscapeAppend(s[1..], b);
    }
  }

  method QueryEscape(s: bytes) returns (escaped: bytes)
    ensures escaped == Escape(s)
  {
    escaped := [];
    for i := 0 to |s|
      invariant escaped == Escape(s[..i])
    {
      var b := s[i];
      assert s[..i + 1] == s[..i] + [b];
      EscapeAppend(s[..i], b);
      if Unreserved(b) {
        escaped := escaped + [b];
      } else if b == SPACE {
        escaped := escaped + [PLUS];
      } else {
        escaped := escaped + [PERCENT, HexDigit(b / 16), HexDigit(b % 16)];
      }
    }
    assert s[..|s|] == s;
  }

  // ---------- Decoding ----------

  /** The value of a hexadecimal digit of either case, 16 for any other byte. */
  function HexValue(b: byte): (n: byte)
    ensures n <= 16
  {
    if Digit(b) then b - 0x30 else if 0x41 <= b <= 0x46 then b - 0x37 else if 0x61 <= b <= 0x66 then b - 0x57 else 16
  }

  function ReplacePlus(s: bytes): bytes {
    seq(|s|, i requires 0 <= i < |s| => if s[i] == PLUS then SPACE else s[i])
  }

  /** Whether `s` starts with a percent sign and two digits. */
  predicate StartsEscaped(s: bytes) {
    |s| >= 3 && s[0] == PERCENT && HexValue(s[1]) < 16 && HexValue(s[2]) < 16
  }

  /** A percent sign not followed by two digits stands for itself. */
  function PercentDecode(s: bytes): bytes {
    if s == [] then []
    else if StartsEscaped(s) then
      [HexValue(s[1]) * 16 + HexValue(s[2])] + PercentDecode(s[3..])
    else [s[0]] + PercentDecode(s[1..])
  }

  function Decode(s: bytes, lossy: bytes -> bytes): bytes {
    lossy(PercentDecode(ReplacePlus(s)))
  }

  // ---------- Pairs ----------

  function Segment(pair: Pair): bytes {
    Escape(pair.key) + [EQUALS] + Escape(pair.value)
  }

  function Segments(pairs: seq<Pair>): seq<bytes> {
    if pairs == [] then [] else [Segment(pairs[0])] + Segments(pairs[1..])
  }

  function Serialize(pairs: seq<Pair>): bytes {
    Join(Segments(pairs), AMPERSAND)
  }

  /** An empty segment holds no pair; the key ends at the first equals sign, if there is one. */
  function ParseSegment(segment: bytes, lossy: bytes -> bytes): seq<Pair> {
    if segment == [] then [] else
      var n := Cut(segment, {EQUALS});
      [Pair(Decode(segment[..n], lossy), Decode(if n < |segment| then segment[n + 1..] else [], lossy))]
  }

  /** The segments with a semicolon are dropped, as Go drops them. */
  function ParseSegments(segments: seq<bytes>, lossy: bytes -> bytes): seq<Pair> {
    if segments == [] then [] else
      (if SEMICOLON in segments[0] then [] else ParseSegment(segments[0], lossy)) + ParseSegments(segments[1..], lossy)
  }

  function Parse(query: bytes, lossy: bytes -> bytes): seq<Pair> {
    ParseSegments(Split(query, AMPERSAND), lossy)
  }

  // ---------- Spellings of a string ----------

  /** The bytes a serialized query is made of. */
  predicate Plain(b: byte) {
    Unreserved(b) || b == PLUS || b == PERCENT
  }

  predicate AllPlain(s: bytes) {
    forall i | 0 <= i < |s| :: Plain(s[i])
  }

  lemma {:induction false} EscapeIsPlain(s: bytes)
    ensures AllPlain(Escape(s))
  {
    if s != [] {
      EscapeIsPlain(s[1..]);
    }
  }

  /**
   `encoded` spells `raw`: any byte as two hexadecimal digits of either case after a percent
   sign, a space as a plus sign, and all else as itself, other percent signs included.
   */
  ghost predicate Encodes(encoded: bytes, raw: bytes) {
    if encoded == [] || raw == [] then encoded == raw
    else if StartsEscaped(encoded) then
      && raw[0] as int == 16 * HexValue(encoded[1]) as int + HexValue(encoded[2]) as int
      && Encodes(encoded[3..], raw[1..])
    else raw[0] == (if encoded[0] == PLUS then SPACE else encoded[0]) && Encodes(encoded[1..], raw[1..])
  }

  lemma ReplacePlusConcat(a: bytes, b: bytes)
    ensures ReplacePlus(a + b) == ReplacePlus(a) + ReplacePlus(b)
  {
  }

  /** Every text spells exactly one string, the one it decodes to. */
  lemma {:induction false} EncodingsDecode(encoded: bytes, raw: bytes)
    ensures Encodes(encoded, raw) <==> PercentDecode(ReplacePlus(encoded)) == raw
  {
    if encoded != [] && raw != [] {
      var n := if StartsEscaped(encoded) then 3 else 1;
      EncodingsDecode(encoded[n..], raw[1..]);
      assert encoded == encoded[..n] + encoded[n..];
      ReplacePlusConcat(encoded[..n], encoded[n..]);
      var e := ReplacePlus(encoded);
      assert e[n..] == ReplacePlus(encoded[n..]);
      assert StartsEscaped(e) <==> StartsEscaped(encoded);
      assert raw == [raw[0]] + raw[1..];
    }
  }

  /** Escaping is one such spelling, of any bytes. */
  lemma {:induction false} EscapeEncodes(s: bytes)
    ensures Encodes(Escape(s), s)
  {
    if s != [] {
      EscapeEncodes(s[1..]);
      var b, e := s[0], EscapeByte(s[0]);
      assert HexValue(HexDigit(b / 16)) == b / 16 && HexValue(HexDigit(b % 16)) == b % 16;
      assert Escape(s)[|e|..] == Escape(s[1..]);
      assert b as int == 16 * ((b / 16) as int) + (b % 16) as int;
    }
  }

  // ---------- Go's query escaping ----------

  /** The characters Go leaves alone in a query. */
  predicate GoKeeps(c: char) {
    'A' <= c <= 'Z' || 'a' <= c <= 'z' || '0' <= c <= '9' || c == '-' || c == '.' || c == '_' || c == '~'
  }

  /** The value of a hexadecimal digit in upper case, -1 for any other character. */
  function UpperDigit(c: char): int {
    if '0' <= c <= '9' then c as int - '0' as int else if 'A' <= c <= 'F' then c as int - 'A' as int + 10 else -1
  }

  /** Plus signs, characters left alone, and all others but the space as a percent sign and two digits in upper case. */
  ghost predicate GoForm(text: bytes) {
    text == [] ||
    if text[0] as char == '%' then
      && |text| >= 3
      && (var high, low := UpperDigit(text[1] as char), UpperDigit(text[2] as char);
          high >= 0 && low >= 0 && !GoKeeps((16 * high + low) as char) && 16 * high + low != 0x20)
      && GoForm(text[3..])
    else
      (GoKeeps(text[0] as char) || text[0] as char == '+') && GoForm(text[1..])
  }

  lemma UpperDigits(n: byte)
    requires n < 16
    ensures HexDigit(n) as char == "0123456789ABCDEF"[n]
    ensures UpperDigit(HexDigit(n) as char) == n as int
  {
  }

  /** The digits are those of either case, and their values are their places. */
  lemma DigitsOfEitherCase(b: byte)
    ensures HexValue(b) < 16 ==> b as char == "0123456789ABCDEF"[HexValue(b)] || b as char == "0123456789abcdef"[HexValue(b)]
    ensures UpperDigit(b as char) >= 0 ==> HexValue(b) as int == UpperDigit(b as char)
    ensures 'a' <= b as char <= 'f' ==> HexValue(b) as int == b as int - 'a' as int + 10
  {
  }

  /** An escape is a percent sign and any two such digits. */
  lemma EscapesMean(s: bytes)
    ensures
      StartsEscaped(s) <==>
      && |s| >= 3 && s[0] as char == '%'
      && s[1] as char in "0123456789ABCDEFabcdef" && s[2] as char in "0123456789ABCDEFabcdef"
  {
    if |s| >= 3 {
      IsDigit(s[1]);
      IsDigit(s[2]);
    }
  }

  lemma IsDigit(b: byte)
    ensures HexValue(b) < 16 <==> b as char in "0123456789ABCDEFabcdef"
  {
    var digits := "0123456789ABCDEFabcdef";
    if HexValue(b) < 16 {
      assert b as char == digits[if b < 0x61 then HexValue(b) else HexValue(b) + 6];
    }
  }

  lemma EscapedByteForm(b: byte, rest: bytes)
    requires GoForm(rest)
    ensures GoForm(EscapeByte(b) + rest)
  {
    var text := EscapeByte(b) + rest;
    assert text[|EscapeByte(b)|..] == rest;
    UpperDigits(b / 16);
    UpperDigits(b % 16);
  }

  lemma {:induction false} EscapeHasGoForm(s: bytes)
    ensures GoForm(Escape(s))
  {
    if s != [] {
      EscapeHasGoForm(s[1..]);
      EscapedByteForm(s[0], Escape(s[1..]));
    }
  }

  lemma TwoDigits(high: byte, low: byte, b: byte)
    requires UpperDigit(high as char) >= 0 && UpperDigit(low as char) >= 0
    requires b as int == 16 * UpperDigit(high as char) + UpperDigit(low as char)
    ensures HexDigit(b / 16) == high && HexDigit(b % 16) == low
  {
    var h, l := UpperDigit(high as char) as byte, UpperDigit(low as char) as byte;
    assert b / 16 == h && b % 16 == l;
  }

  lemma GoFormStarts(text: bytes, s: bytes)
    requires text != [] && GoForm(text) && Encodes(text, s)
    ensures s != [] && |EscapeByte(s[0])| <= |text| && text[..|EscapeByte(s[0])|] == EscapeByte(s[0])
    ensures GoForm(text[|EscapeByte(s[0])|..]) && Encodes(text[|EscapeByte(s[0])|..], s[1..])
  {
    if text[0] == PERCENT {
      PercentFormStarts(text, s);
    } else {
      assert text[..1] == [text[0]];
      assert s != [] && s[0] == if text[0] == PLUS then SPACE else text[0];
    }
  }

  lemma PercentFormStarts(text: bytes, s: bytes)
    requires text != [] && text[0] == PERCENT && GoForm(text) && Encodes(text, s)
    ensures s != [] && |text| >= 3 && EscapeByte(s[0]) == text[..3]
    ensures GoForm(text[3..]) && Encodes(text[3..], s[1..])
  {
    DigitsOfEitherCase(text[1]);
    DigitsOfEitherCase(text[2]);
    assert StartsEscaped(text);
    TwoDigits(text[1], text[2], s[0]);
    assert text[..3] == [text[0], text[1], text[2]];
    KeptIsUnreserved(s[0]);
  }

  lemma KeptIsUnreserved(b: byte)
    ensures Unreserved(b) <==> GoKeeps(b as char)
  {
  }

  lemma {:induction false} GoFormIsEscape(text: bytes, s: bytes)
    requires GoForm(text) && Encodes(text, s)
    ensures text == Escape(s)
  {
    if text != [] {
      GoFormStarts(text, s);
      GoFormIsEscape(text[|EscapeByte(s[0])|..], s[1..]);
      assert text == EscapeByte(s[0]) + text[|EscapeByte(s[0])|..];
    }
  }

  /** Escaping gives the only spelling of Go's form. */
  lemma EscapeIsGoEscape(text: bytes, s: bytes)
    ensures text == Escape(s) <==> GoForm(text) && Encodes(text, s)
  {
    EscapeEncodes(s);
    EscapeHasGoForm(s);
    if GoForm(text) && Encodes(text, s) {
      GoFormIsEscape(text, s);
    }
  }

  // ---------- What the parser reads ----------

  lemma {:induction false} SplitConcat(a: bytes, b: bytes, separator: byte)
    ensures Split(a + [separator] + b, separator) == Split(a, separator) + Split(b, separator)
  {
    var s := a + [separator] + b;
    if a == [] {
      assert s[1..] == b;
    } else {
      assert s[1..] == a[1..] + [separator] + b;
      SplitConcat(a[1..], b, separator);
    }
  }

  lemma {:induction false} ParseSegmentsConcat(a: seq<bytes>, b: seq<bytes>, lossy: bytes -> bytes)
    ensures ParseSegments(a + b, lossy) == ParseSegments(a, lossy) + ParseSegments(b, lossy)
  {
    if a == [] {
      assert a + b == b;
    } else {
      assert (a + b)[1..] == a[1..] + b;
      ParseSegmentsConcat(a[1..], b, lossy);
    }
  }

  /** A query is read segment by segment. */
  lemma ParseConcat(a: bytes, b: bytes, lossy: bytes -> bytes)
    ensures Parse(a + [AMPERSAND] + b, lossy) == Parse(a, lossy) + Parse(b, lossy)
  {
    SplitConcat(a, b, AMPERSAND);
    ParseSegmentsConcat(Split(a, AMPERSAND), Split(b, AMPERSAND), lossy);
  }

  lemma ParseOne(segment: bytes, lossy: bytes -> bytes)
    requires AMPERSAND !in segment
    ensures Parse(segment, lossy) == if SEMICOLON in segment then [] else ParseSegment(segment, lossy)
  {
    SplitAppend(segment, [], AMPERSAND);
    var segments := Split(segment, AMPERSAND);
    assert segments == [segment];
    var head := if SEMICOLON in segments[0] then [] else ParseSegment(segments[0], lossy);
    assert ParseSegments(segments[1..], lossy) == [];
    assert ParseSegments(segments, lossy) == head + ParseSegments(segments[1..], lossy);
  }

  /** A segment holds the pair its two sides spell, unless it has a semicolon. */
  lemma SegmentMeans(key: bytes, value: bytes, k: bytes, v: bytes, lossy: bytes -> bytes)
    requires Encodes(key, k) && Encodes(value, v)
    requires AMPERSAND !in key && EQUALS !in key && AMPERSAND !in value
    ensures
      Parse(key + [EQUALS] + value, lossy) ==
      if SEMICOLON in key || SEMICOLON in value then [] else [Pair(lossy(k), lossy(v))]
  {
    var segment := key + [EQUALS] + value;
    InSides(key, value, AMPERSAND);
    InSides(key, value, SEMICOLON);
    ParseOne(segment, lossy);
    SegmentSides(key, value, lossy);
    EncodingsDecode(key, k);
    EncodingsDecode(value, v);
  }

  /** Without an equals sign the value is empty; an empty segment holds no pair. */
  lemma LoneKeyMeans(key: bytes, k: bytes, lossy: bytes -> bytes)
    requires Encodes(key, k) && AMPERSAND !in key && EQUALS !in key
    ensures Parse(key, lossy) == if SEMICOLON in key || key == [] then [] else [Pair(lossy(k), lossy([]))]
  {
    ParseOne(key, lossy);
    SegmentSides(key, [], lossy);
    EncodingsDecode(key, k);
  }

  lemma InSides(key: bytes, value: bytes, b: byte)
    ensures b in key + [EQUALS] + value <==> b in key || b == EQUALS || b in value
  {
  }

  lemma SegmentSides(key: bytes, value: bytes, lossy: bytes -> bytes)
    requires EQUALS !in key
    ensures ParseSegment(key + [EQUALS] + value, lossy) == [Pair(Decode(key, lossy), Decode(value, lossy))]
    ensures ParseSegment(key, lossy) == if key == [] then [] else [Pair(Decode(key, lossy), lossy([]))]
  {
    var segment := key + ([EQUALS] + value);
    assert segment == key + [EQUALS] + value;
    CutAt(key, [EQUALS] + value, {EQUALS});
    CutAt(key, [], {EQUALS});
    assert key + [] == key && key[..|key|] == key;
    assert segment[..|key|] == key && segment[|key| + 1..] == value;
    assert ReplacePlus([]) == [];
  }

  // ---------- Parsing undoes serializing ----------

  /** A serialized segment is plain but for one equals sign, and parses to its pair. */
  lemma ParseSegmentOfPair(pair: Pair, lossy: bytes -> bytes)
    ensures Serial(Segment(pair), {EQUALS})
    ensures ParseSegment(Segment(pair), lossy) == [Pair(lossy(pair.key), lossy(pair.value))]
  {
    var k, v := Escape(pair.key), Escape(pair.value);
    EscapeIsPlain(pair.key);
    EscapeIsPlain(pair.value);
    CutAt(k, [EQUALS] + v, {EQUALS});
    assert Segment(pair) == k + ([EQUALS] + v);
    assert Segment(pair)[..|k|] == k && Segment(pair)[|k| + 1..] == v;
    EscapeEncodes(pair.key);
    EscapeEncodes(pair.value);
    EncodingsDecode(k, pair.key);
    EncodingsDecode(v, pair.value);
  }

  /** Plain but for some separators. */
  predicate Serial(s: bytes, separators: set<byte>) {
    forall i | 0 <= i < |s| :: Plain(s[i]) || s[i] in separators
  }

  ghost predicate Preserved(pairs: seq<Pair>, lossy: bytes -> bytes) {
    forall pair | pair in pairs :: lossy(pair.key) == pair.key && lossy(pair.value) == pair.value
  }

  lemma {:induction false} SegmentsAreSerial(pairs: seq<Pair>)
    ensures |Segments(pairs)| == |pairs|
    ensures forall segment | segment in Segments(pairs) :: Serial(segment, {EQUALS})
  {
    if pairs != [] {
      ParseSegmentOfPair(pairs[0], s => s);
      SegmentsAreSerial(pairs[1..]);
    }
  }

  lemma {:induction false} ParseSegmentsOfPairs(pairs: seq<Pair>, lossy: bytes -> bytes)
    requires Preserved(pairs, lossy)
    ensures ParseSegments(Segments(pairs), lossy) == pairs
  {
    if pairs != [] {
      assert pairs[0] in pairs;
      ParseSegmentOfPair(pairs[0], lossy);
      assert SEMICOLON !in Segment(pairs[0]);
      ParseSegmentsOfPairs(pairs[1..], lossy);
    }
  }

  /** Parsing a serialized query gives back exactly its pairs, whatever bytes they hold. */
  lemma ParseSerialize(pairs: seq<Pair>, lossy: bytes -> bytes)
    requires Preserved(pairs, lossy)
    ensures Parse(Serialize(pairs), lossy) == pairs
  {
    if pairs == [] {
      ParseOne([], lossy);
    } else {
      ParseSegmentsOfPairs(pairs, lossy);
      SegmentsAreSerial(pairs);
      forall segment | segment in Segments(pairs) ensures AMPERSAND !in segment {
        assert Serial(segment, {EQUALS});
      }
      SplitJoin(Segments(pairs), AMPERSAND);
    }
  }

  lemma {:induction false} JoinIsSerial(segments: seq<bytes>)
    requires forall segment | segment in segments :: Serial(segment, {EQUALS})
    ensures Serial(Join(segments, AMPERSAND), {EQUALS, AMPERSAND})
  {
    if segments != [] {
      assert segments[0] in segments;
      if |segments| > 1 {
        JoinIsSerial(segments[1..]);
      }
    }
  }

  /** A serialized query is plain but for its separators. */
  lemma SerializeIsSerial(pairs: seq<Pair>)
    ensures Serial(Serialize(pairs), {EQUALS, AMPERSAND})
  {
    SegmentsAreSerial(pairs);
    JoinIsSerial(Segments(pairs));
  }
}
