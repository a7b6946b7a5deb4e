/** The constants of the certificate trust store: certificate types, the
    allowed-use bits, the hash codes of section 7.4.1.4.1 of RFC 5246, the
    secname map types and flag, the cache-index format number and the SNMP
    error-status codes the varbind check returns. */
module CertConst {

  // Certificate types (NS_CERT_TYPE_*). UNKNOWN is "not classified yet".
  const CERT_TYPE_UNKNOWN: int := 0
  const CERT_TYPE_PEM: int := 1
  const CERT_TYPE_DER: int := 2
  const CERT_TYPE_PKCS12: int := 3
  const CERT_TYPE_KEY: int := 4

  // Allowed uses (NS_CERT_*): one bit each, held in an unsigned char.
  const CERT_IDENTITY: bv8 := 0x01
  const CERT_REMOTE_PEER: bv8 := 0x02
  const CERT_RESERVED1: bv8 := 0x04
  const CERT_CA: bv8 := 0x08

  // Where netsnmp_cert_find looks (NS_CERTKEY_*).
  const CERTKEY_DEFAULT: int := 0x000
  const CERTKEY_FILE: int := 0x001
  const CERTKEY_FINGERPRINT: int := 0x002
  const CERTKEY_CA: int := 0x004
  const CERTKEY_TARGET_PARAM: int := 0x080
  const CERTKEY_TARGET_ADDR: int := 0x100

  // Hash algorithms, numbered as in section 7.4.1.4.1 of RFC 5246 (NS_HASH_*).
  const HASH_NONE: int := 0
  const HASH_MD5: int := 1
  const HASH_SHA1: int := 2
  const HASH_SHA224: int := 3
  const HASH_SHA256: int := 4
  const HASH_SHA384: int := 5
  const HASH_SHA512: int := 6
  const HASH_MAX: int := HASH_SHA512

  // Secname map types (TSNM_tlstmCert*); 0 means "no valid type".
  const MAP_CERT_SPECIFIED: int := 1
  const MAP_SAN_RFC822_NAME: int := 2
  const MAP_SAN_DNS_NAME: int := 3
  const MAP_SAN_IP_ADDRESS: int := 4
  const MAP_SAN_ANY: int := 5
  const MAP_COMMON_NAME: int := 6
  const MAP_TYPE_MAX: int := MAP_COMMON_NAME

  // A rule that came from a certSecName configuration line (NSCM_FROM_CONFIG).
  const CERT_MAP_FROM_CONFIG: bv8 := 0x01

  // Cache-index layout version, bumped whenever the line format changes.
  const CERT_INDEX_FORMAT: int := 1

  // Administrative string bound of the MIB; fingerprints are hex, so twice that.
  const SNMP_ADMIN_LENGTH: int := 255

  // Issuer string that marks a root certificate.
  const SELF_SIGNED: string := "self-signed"

  // SNMP error-status values (section 3 of RFC 3416).
  const SNMP_ERR_NOERROR: int := 0
  const SNMP_ERR_GENERR: int := 5
  const SNMP_ERR_WRONGLENGTH: int := 8
  const SNMP_ERR_WRONGVALUE: int := 10

  predicate IsHashCode(h: int) { HASH_NONE <= h <= HASH_MAX }

  predicate IsMapType(t: int) { MAP_CERT_SPECIFIED <= t <= MAP_TYPE_MAX }

  /** The allowed-use set with the given members. */
  function UseSet(identity: bool, remotePeer: bool, reserved1: bool, ca: bool): (u: bv8)
    ensures u < 16
    ensures (u & CERT_IDENTITY != 0) == identity
    ensures (u & CERT_REMOTE_PEER != 0) == remotePeer
    ensures (u & CERT_RESERVED1 != 0) == reserved1
    ensures (u & CERT_CA != 0) == ca
  {
    (if identity then CERT_IDENTITY else 0) | (if remotePeer then CERT_REMOTE_PEER else 0)
    | (if reserved1 then CERT_RESERVED1 else 0) | (if ca then CERT_CA else 0)
  }

  /** Every value below 16 is exactly one combination of the four use bits, so
      the four flags are distinct single bits that together fill the low nibble. */
  lemma UseSetCoversModeRange(u: bv8)
    requires u < 16
    ensures u == UseSet(u & CERT_IDENTITY != 0, u & CERT_REMOTE_PEER != 0,
                        u & CERT_RESERVED1 != 0, u & CERT_CA != 0)
  {
  }

  /** `uses | flag`: the use set with one more use granted. Every use it had
      is kept. */
  function AddUse(uses: bv8, flag: bv8): (r: bv8)
    ensures r & flag == flag
    ensures r & uses == uses
  {
    uses | flag
  }

  /** The 16-entry mode description table used for diagnostics. */
  const MODES: seq<string> := [
    "none", "identity", "remote_peer", "identity+remote_peer",
    "reserved1", "reserved1+identity", "reserved1+remote_peer",
    "reserved1+identity+remote_peer",
    "CA", "CA+identity", "CA+remote_peer", "CA+identity+remote_peer",
    "CA+reserved1", "CA+reserved1+identity", "CA+reserved1+remote_peer",
    "CA+reserved1+identity+remote_peer"]

  /** The description of a mode; the table has one entry per use combination. */
  function ModeName(mode: bv8): (name: string)
    requires mode < 16
  {
    MODES[mode as int]
  }

  /** Any combination of use flags indexes the mode table in range, and the
      single flags name themselves. */
  lemma ModeNamesOfFlags(identity: bool, remotePeer: bool, reserved1: bool, ca: bool)
    ensures (UseSet(identity, remotePeer, reserved1, ca) as int) < |MODES|
    ensures ModeName(CERT_IDENTITY) == "identity" && ModeName(CERT_REMOTE_PEER) == "remote_peer"
    ensures ModeName(CERT_RESERVED1) == "reserved1" && ModeName(CERT_CA) == "CA"
    ensures ModeName(0) == "none"
  {
  }
}
