/** Byte strings, and the bytes with a meaning in urls. */
module Bytes {
  import opened Results

  newtype byte = b: int | 0 <= b < 256

  type bytes = seq<byte>

  const SPACE: byte := 0x20
  const HASH: byte := 0x23
  const PERCENT: byte := 0x25
  const AMPERSAND: byte := 0x26
  const PLUS: byte := 0x2B
  const HYPHEN: byte := 0x2D
  const DOT: byte := 0x2E
  const SLASH: byte := 0x2F
  const COLON: byte := 0x3A
  const SEMICOLON: byte := 0x3B
  const EQUALS: byte := 0x3D
  const QUESTION: byte := 0x3F
  const BACKSLASH: byte := 0x5C
  const UNDERSCORE: byte := 0x5F
  const TILDE: byte := 0x7E

  /** The names above name these characters. */
  lemma BytesAreAscii()
    ensures SPACE as char == ' ' && HASH as char == '#' && PERCENT as char == '%' && AMPERSAND as char == '&'
    ensures PLUS as char == '+' && HYPHEN as char == '-' && DOT as char == '.' && SLASH as char == '/'
    ensures COLON as char == ':' && SEMICOLON as char == ';' && EQUALS as char == '=' && QUESTION as char == '?'
    ensures BACKSLASH as char == '\\' && UNDERSCORE as char == '_' && TILDE as char == '~'
  {
  }

  /** `s` cut at every `separator`. */
  function Split(s: bytes, separator: byte): (parts: seq<bytes>)
    ensures parts != []
  {
    if s == [] then [[]] else
      var rest := Split(s[1..], separator);
      if s[0] == separator then [[]] + rest else [[s[0]] + rest[0]] + rest[1..]
  }

  function Join(parts: seq<bytes>, separator: byte): bytes {
    if parts == [] then [] else if |parts| == 1 then parts[0] else parts[0] + [separator] + Join(parts[1..], separator)
  }

  lemma {:induction false} SplitAppend(part: bytes, rest: bytes, separator: byte)
    requires separator !in part
    ensures Split(part, separator) == [part]
    ensures Split(part + [separator] + rest, separator) == [part] + Split(rest, separator)
  {
    if part == [] {
      assert (part + [separator] + rest)[1..] == rest;
    } else {
      SplitAppend(part[1..], rest, separator);
      assert [part[0]] + part[1..] == part;
      assert (part + [separator] + rest)[1..] == part[1..] + [separator] + rest;
    }
  }

  lemma {:induction false} SplitJoin(parts: seq<bytes>, separator: byte)
    requires parts != []
    requires forall part | part in parts :: separator !in part
    ensures Split(Join(parts, separator), separator) == parts
  {
    assert parts[0] in parts;
    if |parts| == 1 {
      SplitAppend(parts[0], [], separator);
    } else {
      SplitJoin(parts[1..], separator);
      SplitAppend(parts[0], Join(parts[1..], separator), separator);
    }
  }

  predicate Free(s: bytes, stops: set<byte>) {
    forall i | 0 <= i < |s| :: s[i] !in stops
  }

  /** The number of leading bytes before the first one in `stops`. */
  function Cut(s: bytes, stops: set<byte>): (n: nat)
    ensures n <= |s|
    ensures Free(s[..n], stops)
    ensures n < |s| ==> s[n] in stops
  {
    if s == [] || s[0] in stops then 0 else 1 + Cut(s[1..], stops)
  }

  lemma CutAt(a: bytes, b: bytes, stops: set<byte>)
    requires Free(a, stops)
    requires b == [] || b[0] in stops
    ensures Cut(a + b, stops) == |a|
  {
    var n := Cut(a + b, stops);
    assert forall i | 0 <= i < |a| :: (a + b)[i] == a[i];
    assert forall i | 0 <= i < n :: (a + b)[i] == (a + b)[..n][i];
    assert b != [] ==> (a + b)[|a|] == b[0];
  }

  /** The position of the first `pattern`. */
  function Find(s: bytes, pattern: bytes): (at: Option<nat>)
    requires pattern != []
    ensures at.Some? ==> at.value + |pattern| <= |s|
  {
    if |s| < |pattern| then None
    else if s[..|pattern|] == pattern then Some(0)
    else
      match Find(s[1..], pattern)
      case None => None
      case Some(n) => Some(n + 1)
  }
}
