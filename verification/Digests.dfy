/** Content digests (internal/registry/blobstore/digest.go). */
module Digests {
  import opened Strings

  datatype Digest = Digest(alg: string, hex: string)
  {
    /** The "algorithm:hex" form, empty for an incomplete digest. */
    function String(): string {
      if alg == "" || hex == "" then "" else alg + ":" + hex
    }

    predicate IsZero() {
      alg == "" && hex == ""
    }

    predicate Equal(other: Digest) {
      alg == other.alg && Lower(hex) == Lower(other.hex)
    }

    /** What ParseDigest returns: a known algorithm and a lower-case
        fingerprint of its length. */
    predicate Canonical() {
      Supported(alg) && |hex| == HexLength(alg) && forall i | 0 <= i < |hex| :: IsHexDigit(hex[i]) && !IsUpper(hex[i])
    }
  }

  predicate IsHexDigit(c: char) {
    IsDigit(c) || 'a' <= c <= 'f' || 'A' <= c <= 'F'
  }

  predicate Supported(alg: string) {
    alg == "sha256" || alg == "sha512"
  }

  function HexLength(alg: string): nat
    requires Supported(alg)
  {
    if alg == "sha256" then 64 else 128
  }

  function ParseDigest(s: string): Option<Digest> {
    match IndexOf(s, ':')
    case None => None
    case Some(i) =>
      if i == 0 || i == |s| - 1 then None
      else
        var alg, hx := s[..i], s[i + 1..];
        if !Supported(alg) || |hx| != HexLength(alg) then None
        else if exists j | 0 <= j < |hx| :: !IsHexDigit(hx[j]) then None
        else Some(Digest(alg, Lower(hx)))
  }

  /** Parsing yields canonical digests only, and every one of them. */
  lemma ParseDigestCanonical(s: string, d: Digest)
    ensures ParseDigest(s).Some? ==> ParseDigest(s).value.Canonical()
    ensures d.Canonical() ==> ParseDigest(d.String()) == Some(d)
  {
    if d.Canonical() {
      IndexOfUnique(d.String(), ':', |d.alg|);
      assert d.String()[..|d.alg|] == d.alg && d.String()[|d.alg| + 1..] == d.hex;
      assert Lower(d.hex) == d.hex;
    }
  }

  /** Which texts are parsed: a known algorithm, a colon and as many hexadecimal
      digits as its hash has, and what becomes of them. */
  lemma ParseDigestExact(s: string, alg: string, hx: string)
    requires ':' !in alg
    requires s == alg + ":" + hx
    ensures ParseDigest(s).Some? <==>
              && ((alg == "sha256" && |hx| == 64) || (alg == "sha512" && |hx| == 128))
              && forall c | c in hx :: '0' <= c <= '9' || 'a' <= c <= 'f' || 'A' <= c <= 'F'
    ensures ParseDigest(s).Some? ==> ParseDigest(s).value == Digest(alg, Lower(hx))
  {
    IndexOfUnique(s, ':', |alg|);
    assert s[..|alg|] == alg && s[|alg| + 1..] == hx;
    if exists j | 0 <= j < |hx| :: !IsHexDigit(hx[j]) {
      var j :| 0 <= j < |hx| && !IsHexDigit(hx[j]);
      assert hx[j] in hx;
    }
  }

  lemma ColonNeeded(s: string)
    requires ':' !in s
    ensures ParseDigest(s) == None
  {
  }

  /** Where the local store keeps a blob, below its root. */
  function BlobPath(d: Digest): string {
    if |d.hex| < 2 then "blobs/" + d.alg + "/" + d.hex
    else "blobs/" + d.alg + "/" + d.hex[..2] + "/" + d.hex
  }

  /** Sharded by the first two digits. */
  lemma BlobHome(d: Digest)
    requires d.Canonical()
    ensures BlobPath(d) == "blobs/" + d.alg + "/" + d.hex[..2] + "/" + d.hex
    ensures d.String() == d.alg + ":" + d.hex
  {
  }

  lemma BlobPathInjective(d: Digest, e: Digest)
    requires d.Canonical() && e.Canonical() && BlobPath(d) == BlobPath(e)
    ensures d == e
  {
    assert BlobPath(d)[6..12] == d.alg && BlobPath(d)[16..] == d.hex;
    assert BlobPath(e)[6..12] == e.alg && BlobPath(e)[16..] == e.hex;
  }

  lemma StringInjective(d: Digest, e: Digest)
    requires d.Canonical() && e.Canonical() && d.String() == e.String()
    ensures d == e
  {
    ParseDigestCanonical("", d);
    ParseDigestCanonical("", e);
  }
}
