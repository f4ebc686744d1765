/** Content digests as text, an algorithm and the encoded hash with a colon between. */
module Digests {
  import opened Results

  datatype Algorithm = Crc32 | Sha256 | Sha512

  datatype Digest = Digest(algorithm: Algorithm, encoded: string)

  function AlgorithmText(algorithm: Algorithm): string {
    match algorithm
    case Crc32 => "crc32"
    case Sha256 => "sha256"
    case Sha512 => "sha512"
  }

  function Display(digest: Digest): string {
    AlgorithmText(digest.algorithm) + ":" + digest.encoded
  }

  /** The length the algorithm asks of the encoded hash. */
  predicate ValidDigest(digest: Digest) {
    match digest.algorithm
    case Crc32 => digest.encoded != ""
    case Sha256 => |digest.encoded| == 64
    case Sha512 => |digest.encoded| == 128
  }

  function Colon(s: string): (n: nat)
    ensures n <= |s|
    ensures ':' !in s[..n]
    ensures n < |s| ==> s[n] == ':'
  {
    if s == "" || s[0] == ':' then 0 else 1 + Colon(s[1..])
  }

  function AlgorithmOf(s: string): Option<Algorithm> {
    if s == "crc32" then Some(Crc32) else if s == "sha256" then Some(Sha256) else if s == "sha512" then Some(Sha512) else None
  }

  function Parse(s: string): Option<Digest> {
    var n := Colon(s);
    if n == |s| then None else
      match AlgorithmOf(s[..n])
      case None => None
      case Some(algorithm) =>
        var digest := Digest(algorithm, s[n + 1..]);
        if ValidDigest(digest) then Some(digest) else None
  }

  lemma ColonAt(a: string, b: string)
    requires ':' !in a
    ensures Colon(a + ":" + b) == |a|
  {
    var s := a + ":" + b;
    var n := Colon(s);
    assert forall i | 0 <= i < |a| :: s[i] == a[i];
    assert s[|a|] == ':';
    assert forall i | 0 <= i < n :: s[i] == s[..n][i];
  }

  /** A text is the display of a valid digest exactly when it parses to it. */
  lemma ParsesExactlyDisplays(s: string, digest: Digest)
    ensures Parse(s) == Some(digest) <==> ValidDigest(digest) && s == Display(digest)
  {
    if ValidDigest(digest) && s == Display(digest) {
      var a := AlgorithmText(digest.algorithm);
      ColonAt(a, digest.encoded);
      assert s[..|a|] == a && s[|a| + 1..] == digest.encoded;
    }
    if Parse(s) == Some(digest) {
      var n := Colon(s);
      assert s == s[..n] + ":" + s[n + 1..];
    }
  }

  /** The texts that parse, algorithm by algorithm. */
  lemma DigestTexts(s: string, encoded: string)
    ensures Parse(s) == Some(Digest(Crc32, encoded)) <==> s == "crc32:" + encoded && encoded != ""
    ensures Parse(s) == Some(Digest(Sha256, encoded)) <==> s == "sha256:" + encoded && |encoded| == 64
    ensures Parse(s) == Some(Digest(Sha512, encoded)) <==> s == "sha512:" + encoded && |encoded| == 128
  {
    ParsesExactlyDisplays(s, Digest(Crc32, encoded));
    ParsesExactlyDisplays(s, Digest(Sha256, encoded));
    ParsesExactlyDisplays(s, Digest(Sha512, encoded));
    assert "crc32" + ":" == "crc32:" && "sha256" + ":" == "sha256:" && "sha512" + ":" == "sha512:";
  }
}
