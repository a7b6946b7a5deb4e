/** The check a SET request's fingerprint value must pass: one octet
    naming the hash algorithm, followed by the digest. */
module Varbind {
  import opened Optional
  import opened CertConst

  /** netsnmp_cert_check_vb_fingerprint: `v` is the varbind's octet
      string, None when there is no varbind. An empty value is allowed;
      otherwise the length must be odd (a type octet and a digest of an
      even number of octets) and the type octet no larger than the
      largest hash algorithm number. */
  function CheckFingerprint(v: Option<seq<bv8>>): (status: int)
    ensures status in {SNMP_ERR_NOERROR, SNMP_ERR_GENERR, SNMP_ERR_WRONGLENGTH, SNMP_ERR_WRONGVALUE}
    ensures status == SNMP_ERR_GENERR <==> v.None?
    ensures status == SNMP_ERR_WRONGLENGTH <==> v.Some? && |v.value| > 0 && |v.value| % 2 == 0
    ensures status == SNMP_ERR_WRONGVALUE <==> v.Some? && |v.value| % 2 == 1 && v.value[0] as int > HASH_MAX
  {
    match v
    case None => SNMP_ERR_GENERR
    case Some(s) =>
      if |s| == 0 then SNMP_ERR_NOERROR
      else if |s| % 2 == 0 then SNMP_ERR_WRONGLENGTH
      else if s[0] as int > HASH_MAX then SNMP_ERR_WRONGVALUE
      else SNMP_ERR_NOERROR
  }

  /** The varbind value of a fingerprint: the hash type octet, then the
      digest. */
  function Encode(hashType: int, digest: seq<bv8>): (v: seq<bv8>)
    requires IsHashCode(hashType)
    ensures |v| == |digest| + 1 && v[0] as int == hashType && v[1..] == digest
  {
    [hashType as bv8] + digest
  }

  /** Digest lengths in octets of the hash algorithms a fingerprint may
      use: MD5 (RFC 1321), SHA-1 and the SHA-2 family (FIPS 180-4). */
  function DigestLength(hashType: int): (n: nat)
    requires HASH_MD5 <= hashType <= HASH_MAX
    ensures n % 2 == 0 && 16 <= n <= 64
  {
    if hashType == HASH_MD5 then 16
    else if hashType == HASH_SHA1 then 20
    else if hashType == HASH_SHA224 then 28
    else if hashType == HASH_SHA256 then 32
    else if hashType == HASH_SHA384 then 48
    else 64
  }

  /** A non-empty value is accepted exactly when it is the encoding of a
      known hash type and a digest of even length. */
  lemma AcceptedIsEncoded(v: seq<bv8>)
    requires |v| > 0
    ensures CheckFingerprint(Some(v)) == SNMP_ERR_NOERROR <==>
      exists h, d :: IsHashCode(h) && |d| % 2 == 0 && v == Encode(h, d)
  {
    if CheckFingerprint(Some(v)) == SNMP_ERR_NOERROR {
      assert v == Encode(v[0] as int, v[1..]);
    }
    if exists h, d :: IsHashCode(h) && |d| % 2 == 0 && v == Encode(h, d) {
      var h, d :| IsHashCode(h) && |d| % 2 == 0 && v == Encode(h, d);
      assert |v| % 2 == 1 && v[0] as int == h;
    }
  }

  /** Every fingerprint of a real digest passes the check. */
  lemma DigestAccepted(hashType: int, digest: seq<bv8>)
    requires HASH_MD5 <= hashType <= HASH_MAX && |digest| == DigestLength(hashType)
    ensures CheckFingerprint(Some(Encode(hashType, digest))) == SNMP_ERR_NOERROR
  {
  }
}
