/** The records of the trust store: certificates and private keys found on
    disk, the parsed OpenSSL objects they refer to, and the certificate to
    security-name map entries. Certificates, keys and map entries are
    updated in place after they are created, so they are classes. */
module CertRecords {
  import opened Optional
  import opened CStr
  import opened CertConst
  import opened Classify

  /** Where a certificate or key file lives (the `dir` and `filename` of
      netsnmp_cert_common). */
  datatype Path = Path(dir: string, filename: string)

  /** What the model keeps of a parsed X509 certificate: the one-line subject
      and issuer names, whether X509_check_ca answered 1, the hash algorithm
      and fingerprint derived from it, and the common name (if any). */
  datatype X509 = X509(subject: string, issuer: string, isCa: bool, hashType: int,
                       fingerprint: string, commonName: Option<string>)

  /** A parsed private key; the model only needs to know that one exists. */
  datatype PKey = PKey(handle: nat)

  /** Storing an int into an unsigned char keeps it modulo 256. */
  function UChar(i: int): (b: int)
    ensures 0 <= b < 256
    ensures 0 <= i < 256 ==> b == i
    ensures (b - i) % 256 == 0
  {
    i % 256
  }

  /** netsnmp_key: a private-key file and, once partnered, its certificate. */
  class Key {
    const path: Path
    var certType: int
    var allowedUses: bv8
    var okey: Option<PKey>
    var cert: Cert?

    /** The record _new_key builds once the file passed its checks: a KEY
        usable as an identity, not yet loaded and not yet partnered. */
    constructor (dir: string, filename: string)
      ensures path == Path(dir, filename)
      ensures certType == CERT_TYPE_KEY && allowedUses == CERT_IDENTITY
      ensures okey.None? && cert == null
    {
      path := Path(dir, filename);
      certType := CERT_TYPE_KEY;
      allowedUses := CERT_IDENTITY;
      okey := None;
      cert := null;
    }

    /** netsnmp_okey_get: the parsed key, read from the file on first use
        and kept from then on. `parse` stands for the PEM key reader. */
    method OkeyGet(parse: Path -> Option<PKey>) returns (k: Option<PKey>)
      modifies this
      ensures k == if old(okey).Some? then old(okey) else parse(path)
      ensures okey == if k.Some? then k else old(okey)
      ensures certType == old(certType) && allowedUses == old(allowedUses) && cert == old(cert)
    {
      if okey.Some? {
        return okey;
      }
      k := parse(path);
      if k.Some? {
        okey := k;
      }
    }
  }

  /** netsnmp_cert: a certificate file, the fields read from it (lazily,
      by OcertGet), its private key and the certificate that issued it. */
  class Cert {
    const path: Path
    var certType: int
    var allowedUses: bv8
    var ocert: Option<X509>
    var key: Key?
    var issuerCert: Cert?
    var issuer: Option<string>
    var subject: Option<string>
    var fingerprint: Option<string>
    var commonName: Option<string>
    var hashType: int

    /** _new_cert: a certificate usable to identify a remote peer. The hash
        type is recorded only together with a fingerprint; type and hash
        type are stored in unsigned chars. */
    constructor (dir: string, filename: string, certType: int, hashType: int,
                 fingerprint: Option<string>, commonName: Option<string>,
                 subject: Option<string>)
      ensures path == Path(dir, filename) && this.certType == UChar(certType)
      ensures allowedUses == CERT_REMOTE_PEER
      ensures this.fingerprint == fingerprint
      ensures this.hashType == if fingerprint.Some? then UChar(hashType) else HASH_NONE
      ensures this.commonName == commonName && this.subject == subject
      ensures ocert.None? && issuer.None? && key == null && issuerCert == null
    {
      path := Path(dir, filename);
      this.certType := UChar(certType);
      allowedUses := CERT_REMOTE_PEER;
      ocert := None;
      key := null;
      issuerCert := null;
      issuer := None;
      this.subject := subject;
      this.fingerprint := fingerprint;
      this.commonName := commonName;
      this.hashType := if fingerprint.Some? then UChar(hashType) else HASH_NONE;
    }

    /** netsnmp_ocert_get: the parsed certificate, read on first use. An
        unclassified certificate is first typed from its file name; only DER
        and PEM files are read. A successful read records the CA bit and
        fills in every name field that is still missing, marking a
        certificate whose issuer is its own subject as self-signed.
        `parse` stands for the DER/PEM readers. */
    method OcertGet(parse: Path -> Option<X509>) returns (x: Option<X509>)
      modifies this
      ensures old(ocert).Some? ==> x == old(ocert) && unchanged(this)
      ensures key == old(key) && issuerCert == old(issuerCert)
      ensures old(ocert).None? ==> certType == ResolvedType(old(certType), path.filename)
      ensures old(ocert).None? ==> x == if Readable(certType) then parse(path) else None
      ensures x.None? ==>
        ocert == old(ocert) && allowedUses == old(allowedUses) && issuer == old(issuer)
        && subject == old(subject) && fingerprint == old(fingerprint)
        && commonName == old(commonName) && hashType == old(hashType)
      ensures old(ocert).None? && x.Some? ==> Recorded(x.value)
    {
      if ocert.Some? {
        return ocert;
      }
      if certType == CERT_TYPE_UNKNOWN {
        certType := TypeFromFilename(Some(path.filename));
        if certType == CERT_TYPE_UNKNOWN {
          return None;
        }
      }
      if certType != CERT_TYPE_DER && certType != CERT_TYPE_PEM {
        return None;
      }
      x := parse(path);
      if x.Some? {
        Record(x.value);
      }
    }

    /** The state after a successful read of `o`, compared with the state
        before it: `o` is kept, X509_check_ca answering 1 grants the CA use,
        and every name field that was missing is taken from `o`, an issuer
        equal to the subject being recorded as self-signed. */
    twostate predicate Recorded(o: X509)
      reads this
    {
      && ocert == Some(o)
      && allowedUses == (if o.isCa then AddUse(old(allowedUses), CERT_CA) else old(allowedUses))
      && subject == Some(old(subject).GetOr(o.subject))
      && issuer == Some(old(issuer).GetOr(IssuerName(subject.value, o.issuer)))
      && fingerprint == Some(old(fingerprint).GetOr(o.fingerprint))
      && hashType == (if old(fingerprint).Some? then old(hashType) else UChar(o.hashType))
      && commonName == (if old(commonName).Some? then old(commonName) else o.commonName)
      && key == old(key) && issuerCert == old(issuerCert)
    }

    /** Keeps a freshly parsed certificate and fills in the fields it provides. */
    method Record(o: X509)
      modifies this
      ensures Recorded(o) && certType == old(certType)
    {
      var uses := if o.isCa then AddUse(allowedUses, CERT_CA) else allowedUses;
      var sn := subject.GetOr(o.subject);
      var iss := issuer.GetOr(IssuerName(sn, o.issuer));
      var ht := if fingerprint.Some? then hashType else UChar(o.hashType);
      var fp := fingerprint.GetOr(o.fingerprint);
      var cn := if commonName.Some? then commonName else o.commonName;
      ocert, allowedUses, subject, issuer := Some(o), uses, Some(sn), Some(iss);
      hashType, fingerprint, commonName := ht, Some(fp), cn;
    }
  }

  /** The type a certificate is read as: its recorded type, or the type of
      its file-name extension when none was recorded. */
  function ResolvedType(recorded: int, filename: string): (t: int)
    ensures recorded != CERT_TYPE_UNKNOWN ==> t == recorded
    ensures recorded == CERT_TYPE_UNKNOWN && '.' !in filename ==> t == CERT_TYPE_UNKNOWN
  {
    if recorded == CERT_TYPE_UNKNOWN then TypeFromFilename(Some(filename)) else recorded
  }

  /** The certificate types the file readers handle. */
  predicate Readable(certType: int) {
    certType == CERT_TYPE_DER || certType == CERT_TYPE_PEM
  }

  /** The issuer name recorded for a certificate: "self-signed" when the
      issuer names the subject itself, the issuer name otherwise. */
  function IssuerName(subject: string, issuer: string): (r: string)
    ensures subject == issuer ==> r == SELF_SIGNED
    ensures r != SELF_SIGNED ==> r == issuer && subject != issuer
    ensures r == SELF_SIGNED <==> subject == issuer || issuer == SELF_SIGNED
  {
    StrcmpZeroIff(subject, issuer);
    if Strcmp(subject, issuer) == 0 then SELF_SIGNED else issuer
  }

  /** netsnmp_cert_map: one certificate-to-security-name rule. Entries read
      from the configuration carry the FROM_CONFIG flag; entries of a
      caller's list are filled in from the matching rules. */
  class CertMap {
    var priority: int
    var fingerprint: Option<string>
    var mapType: int
    var data: Option<string>
    var hashType: int
    var flags: bv8
    var ocert: Option<X509>

    /** A zero-filled entry, as SNMP_MALLOC_TYPEDEF returns it. */
    constructor ()
      ensures priority == 0 && fingerprint.None? && mapType == 0 && data.None?
      ensures hashType == HASH_NONE && flags == 0 && ocert.None?
    {
      priority := 0;
      fingerprint := None;
      mapType := 0;
      data := None;
      hashType := HASH_NONE;
      flags := 0;
      ocert := None;
    }
  }

  // Permission bits of st_mode that concern other users.
  const S_IWOTH: bv32 := 0x002
  const S_IROTH: bv32 := 0x004

  /** The permission test of _new_key as written: it tests the
      world-readable bit twice. */
  predicate KeyModeRefusedAsWritten(mode: bv32) {
    mode & S_IROTH != 0 || mode & S_IROTH != 0
  }

  /** The permission test its message describes: a key file readable or
      writable by other users is refused. */
  predicate KeyModeRefused(mode: bv32) {
    mode & (S_IROTH | S_IWOTH) != 0
  }

  /** The written test lets a world-writable key (mode 0602) through, which
      the intended test refuses. */
  lemma AsWrittenAcceptsWorldWritable()
    ensures !KeyModeRefusedAsWritten(0x182) && KeyModeRefused(0x182)
  {
  }

  /** The intended test refuses exactly the keys that other users can read
      or write, and it refuses everything the written test refuses. */
  lemma KeyModeRefusedMeaning(mode: bv32)
    ensures KeyModeRefused(mode) <==> (mode & S_IROTH != 0 || mode & S_IWOTH != 0)
    ensures KeyModeRefusedAsWritten(mode) ==> KeyModeRefused(mode)
    ensures KeyModeRefusedAsWritten(mode) <==> mode & S_IROTH != 0
  {
  }

  /** _new_key: the key record for a file whose stat result is `mode` (None
      when stat fails), or null when the file cannot be checked or fails the
      permission test as written (other users may read it). */
  method NewKey(dir: string, filename: string, mode: Option<bv32>) returns (key: Key?)
    ensures key == null <==> mode.None? || KeyModeRefusedAsWritten(mode.value)
    ensures key != null ==> fresh(key) && key.path == Path(dir, filename)
    ensures key != null ==> key.certType == CERT_TYPE_KEY && key.allowedUses == CERT_IDENTITY
    ensures key != null ==> key.okey.None? && key.cert == null
  {
    if mode.None? || KeyModeRefusedAsWritten(mode.value) {
      return null;
    }
    key := new Key(dir, filename);
  }
}
