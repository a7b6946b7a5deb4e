/** The certificate and key store: the containers of certificates and keys,
    lookup by fingerprint, the file-name subset query, partnering keys with
    their certificates, loading a certificate's issuer chain, and the
    lookup gate of netsnmp_cert_find. */
module CertStore {
  import opened Optional
  import opened CStr
  import opened CertConst
  import opened Classify
  import opened CertRecords
  import opened Fingerprint
  import opened Seqs
  import opened Subset
  import opened CacheIndex

  /** The first certificate of `cs` whose fingerprint is `fp`. */
  function FindFingerprint(cs: seq<Cert>, fp: string): (r: Option<Cert>)
    reads cs
    ensures r.Some? ==> r.value in cs && r.value.fingerprint == Some(fp)
    ensures r.None? ==> forall c :: c in cs ==> c.fingerprint != Some(fp)
  {
    if |cs| == 0 then None
    else if cs[0].fingerprint == Some(fp) then Some(cs[0])
    else FindFingerprint(cs[1..], fp)
  }

  /** The certificates whose subject starts with `prefix` (the subject
      index's n-comparison), in container order. */
  function SubjectMatches(cs: seq<Cert>, prefix: string): (r: seq<Cert>)
    reads cs
    ensures forall k :: 0 <= k < |r| ==> r[k] in cs
    ensures forall k :: 0 <= k < |r| ==> r[k].subject.Some? && IsPrefix(prefix, r[k].subject.value)
    ensures forall c :: c in cs && c.subject.Some? && IsPrefix(prefix, c.subject.value) ==> c in r
  {
    if |cs| == 0 then []
    else
      var rest := SubjectMatches(cs[1..], prefix);
      assert forall c :: c in cs[1..] ==> c in cs;
      if cs[0].subject.Some? && IsPrefix(prefix, cs[0].subject.value) then [cs[0]] + rest else rest
  }

  /** The file-name index's n-comparison: the file name starts with `stem`. */
  function FnPrefix(stem: string): Cert? -> bool {
    (c: Cert?) => c != null && IsPrefix(stem, c.path.filename)
  }

  /** What the chain walk may change of a certificate. */
  datatype View = View(key: Key?, subject: Option<string>, fingerprint: Option<string>,
                       ocert: Option<X509>, issuer: Option<string>, issuerCert: Cert?)

  /** The lookup gate: the certificate's allowed uses share a bit with
      the requested use. */
  predicate UseAllowed(uses: bv8, what: bv32) {
    (uses as bv32) & what != 0
  }

  /** The certificates and keys read from the configured directories
      (the `_certs` and `_keys` containers). */
  class Store {
    var certs: seq<Cert>
    var keys: seq<Key>

    /** What the containers and the records keep true: every certificate
        has a fingerprint and a subject; fingerprints and paths are unique;
        key paths are unique; a certificate has an issuer name exactly when
        it has been loaded; an issuer link points into the store; key and certificate links are
        mutual. */
    ghost predicate Valid()
      reads this, certs, keys
    {
      && (forall i :: 0 <= i < |certs| ==> certs[i].fingerprint.Some? && certs[i].subject.Some?)
      && (forall i, j :: 0 <= i < j < |certs| ==>
            certs[i].fingerprint != certs[j].fingerprint && certs[i].path != certs[j].path)
      && (forall i, j :: 0 <= i < j < |keys| ==> keys[i].path != keys[j].path)
      && (forall i :: 0 <= i < |certs| ==> (certs[i].ocert.Some? <==> certs[i].issuer.Some?))
      && (forall c {:trigger c.issuerCert} :: c in certs ==> c.issuerCert == null || c.issuerCert in certs)
      && (forall i :: 0 <= i < |certs| ==>
            certs[i].key == null || (certs[i].key in keys && certs[i].key.cert == certs[i]))
      && (forall i :: 0 <= i < |keys| ==>
            keys[i].cert == null || (keys[i].cert in certs && keys[i].cert.key == keys[i]))
    }

    constructor ()
      ensures Valid() && certs == [] && keys == []
    {
      certs := [];
      keys := [];
    }

    /** _cert_find_fp, with the search key of `SearchKey`: the certificate
        whose fingerprint is the normalised form of `fp`; nothing for a NULL
        fingerprint or one too long for the key buffer. */
    function FindFp(fp: Option<string>): (r: Option<Cert>)
      reads this, certs
      ensures fp.None? ==> r.None?
      ensures fp.Some? && |fp.value| >= FP_TEXT_SIZE ==> r.None?
      ensures r.Some? ==> r.value in certs && r.value.fingerprint == Some(Normalize(fp.value))
      ensures fp.Some? && |fp.value| < FP_TEXT_SIZE && r.None? ==>
        forall c :: c in certs ==> c.fingerprint != Some(Normalize(fp.value))
    {
      if fp.None? then None
      else match LookupKey(fp.value)
        case None => None
        case Some(key) => FindFingerprint(certs, key)
    }

    /** The prefix matches of the file-name index for `stem`. */
    function FnMatches(stem: string): seq<Cert?>
      reads this
    {
      Filter(certs, FnPrefix(stem))
    }

    /** _cert_find_subset_fn: the prefix matches, reduced to the names that
        continue the stem with a registered extension when there is more
        than one, and then to those under the parent of `directory` when
        there is still more than one. */
    function FnSubset(stem: string, directory: Option<string>): seq<Cert?>
      reads this
    {
      var m := FnMatches(stem);
      if |m| <= 1 then m
      else
        var r := Filter(m, StemKeep(stem));
        if |r| > 1 && directory.Some? then
          match ParentDir(directory.value)
          case None => r
          case Some(parent) => Filter(r, DirKeep(parent))
        else r
    }

    /** Builds the subset array for `stem` and reduces it as the C code
        does; null when nothing matches. */
    method FindSubsetFn(stem: string, directory: Option<string>) returns (m: MatchArray?)
      ensures m == null <==> |FnMatches(stem)| == 0
      ensures m != null ==> fresh(m) && fresh(m.slots) && m.Valid() && m.Contents() == FnSubset(stem, directory)
    {
      var matches := Filter(certs, FnPrefix(stem));
      if |matches| == 0 {
        return null;
      }
      m := new MatchArray(matches);
      if m.size > 1 {
        m.ReduceSubset(stem);
      }
      if m.size > 1 && directory.Some? {
        m.ReduceSubsetDir(directory.value);
      }
    }

    /** Every entry of the subset is a stored certificate whose file name
        starts with the stem; when several names start with it, each one
        left is the stem, a `.` and a registered extension. */
    lemma FnSubsetSound(stem: string, directory: Option<string>)
      ensures forall k :: 0 <= k < |FnSubset(stem, directory)| ==>
        var c := FnSubset(stem, directory)[k];
        c != null && c in certs && IsPrefix(stem, c.path.filename)
        && (|FnMatches(stem)| > 1 ==> StemMatch(c.path.filename, stem))
    {
      var m := FnMatches(stem);
      FilterMembers(certs, FnPrefix(stem));
      var r := Filter(m, StemKeep(stem));
      FilterMembers(m, StemKeep(stem));
      if |r| > 1 && directory.Some? && ParentDir(directory.value).Some? {
        FilterMembers(r, DirKeep(ParentDir(directory.value).value));
      }
    }

    /** A single prefix match is never reduced: `snmp.key` partners with
        `snmpd.pem` when that is the only certificate whose name starts with
        `snmp`. */
    lemma SinglePrefixMatchKept(stem: string, directory: Option<string>)
      requires |FnMatches(stem)| == 1
      ensures FnSubset(stem, directory) == FnMatches(stem)
    {
    }

    /** The certificate _find_partner links `key` to: the one certificate
        left by the subset query for the key's file name up to its last
        `.`, provided neither the key nor that certificate is partnered. */
    ghost function PartnerOf(key: Key): Option<Cert>
      reads this, key, certs
    {
      if key.cert != null then None
      else match LastIndexOf(key.path.filename, '.')
        case None => None
        case Some(i) =>
          var cands := FnSubset(key.path.filename[..i], Some(key.path.dir));
          if |cands| == 1 && cands[0] != null && cands[0] in certs && cands[0].key == null
          then Some(cands[0]) else None
    }

    /** _find_partner for a key: links the key and its certificate both
        ways and lets the certificate serve as an identity; in every other
        case nothing changes. */
    method FindPartner(key: Key)
      requires Valid() && key in keys
      modifies key, certs
      ensures Valid() && certs == old(certs) && keys == old(keys)
      ensures old(PartnerOf(key)).None? ==> unchanged(key) && forall c :: c in certs ==> unchanged(c)
      ensures old(PartnerOf(key)).Some? ==>
        var c := old(PartnerOf(key)).value;
        && key.cert == c && c.key == key
        && c.allowedUses == AddUse(old(c.allowedUses), CERT_IDENTITY)
        && key.certType == old(key.certType) && key.allowedUses == old(key.allowedUses)
        && key.okey == old(key.okey)
        && c.certType == old(c.certType) && c.ocert == old(c.ocert) && c.issuerCert == old(c.issuerCert)
        && c.issuer == old(c.issuer) && c.subject == old(c.subject)
        && c.fingerprint == old(c.fingerprint) && c.commonName == old(c.commonName)
        && c.hashType == old(c.hashType)
        && forall d :: d in certs && d != c ==> unchanged(d)
    {
      var dot := LastIndexOf(key.path.filename, '.');
      if dot.None? {
        return;
      }
      var stem := key.path.filename[..dot.value];
      if key.cert != null {
        return;
      }
      var matching := FindSubsetFn(stem, Some(key.path.dir));
      if matching == null {
        return;
      }
      if matching.size == 1 {
        var cert := matching.slots[0];
        FnSubsetSound(stem, Some(key.path.dir));
        assert cert == matching.Contents()[0];
        if cert.key == null {
          Link(key, cert);
        }
      }
    }

    /** Partners an unpartnered key with an unpartnered certificate, which
        may then serve as an identity. */
    method Link(key: Key, cert: Cert)
      requires Valid() && key in keys && cert in certs && key.cert == null && cert.key == null
      modifies key, cert
      ensures Valid()
      ensures key.cert == cert && cert.key == key
      ensures cert.allowedUses == AddUse(old(cert.allowedUses), CERT_IDENTITY)
      ensures key.certType == old(key.certType) && key.allowedUses == old(key.allowedUses)
      ensures key.okey == old(key.okey)
      ensures cert.certType == old(cert.certType) && cert.ocert == old(cert.ocert)
      ensures cert.issuerCert == old(cert.issuerCert) && cert.issuer == old(cert.issuer)
      ensures cert.subject == old(cert.subject) && cert.fingerprint == old(cert.fingerprint)
      ensures cert.commonName == old(cert.commonName) && cert.hashType == old(cert.hashType)
    {
      key.cert := cert;
      cert.key := key;
      cert.allowedUses := AddUse(cert.allowedUses, CERT_IDENTITY);
    }

    /** Inserting a certificate into `_certs`: refused when a stored
        certificate has the same fingerprint or the same path (the unique
        indexes reject it), appended otherwise. */
    method InsertCert(c: Cert) returns (ok: bool)
      requires Valid() && c !in certs
      requires c.fingerprint.Some? && c.subject.Some? && (c.ocert.Some? <==> c.issuer.Some?)
      requires c.key == null && c.issuerCert == null
      modifies this
      ensures Valid() && keys == old(keys)
      ensures ok <==> forall d :: d in old(certs) ==> d.fingerprint != c.fingerprint && d.path != c.path
      ensures certs == if ok then old(certs) + [c] else old(certs)
    {
      ok := forall d :: d in certs ==> d.fingerprint != c.fingerprint && d.path != c.path;
      if ok {
        certs := certs + [c];
      }
    }

    /** Inserting a key into `_keys`: refused when a stored key has the
        same path, appended otherwise. */
    method InsertKey(k: Key) returns (ok: bool)
      requires Valid() && k !in keys && k.cert == null
      modifies this
      ensures Valid() && certs == old(certs)
      ensures ok <==> forall d :: d in old(keys) ==> d.path != k.path
      ensures keys == if ok then old(keys) + [k] else old(keys)
    {
      ok := forall d :: d in keys ==> d.path != k.path;
      if ok {
        keys := keys + [k];
      }
    }

    /** _add_certfile: reads the certificate or key file `filename` of
        `dir` and adds it to the store. A key must pass _new_key's checks
        (`mode` is its stat result) and be readable by `keyParse`; a
        certificate must be readable by `parse`; either must not clash with
        a stored entry. On success the line to append to the directory's
        index is returned when an index is open. */
    method AddCertfile(dir: string, filename: string, mode: Option<bv32>,
                       parse: Path -> Option<X509>, keyParse: Path -> Option<PKey>,
                       indexOpen: bool)
      returns (rc: int, line: Option<string>)
      requires Valid()
      requires TypeFromFilename(Some(filename)) != CERT_TYPE_UNKNOWN
      modifies this
      ensures Valid()
      ensures rc == 0 || rc == -1
      ensures line.Some? <==> rc == 0 && indexOpen
      ensures TypeFromFilename(Some(filename)) == CERT_TYPE_KEY ==>
        && certs == old(certs)
        && (rc == 0 <==>
              && mode.Some? && !KeyModeRefusedAsWritten(mode.value)
              && keyParse(Path(dir, filename)).Some?
              && forall d :: d in old(keys) ==> d.path != Path(dir, filename))
        && (rc == 0 ==>
              && |keys| == |old(keys)| + 1 && keys[..|old(keys)|] == old(keys)
              && var k := keys[|keys| - 1];
                 fresh(k) && k.path == Path(dir, filename) && k.okey == keyParse(k.path)
                 && k.cert == null && k.allowedUses == CERT_IDENTITY)
        && (rc == -1 ==> keys == old(keys))
        && (line.Some? ==> line.value == KeyIndexLine(filename))
      ensures TypeFromFilename(Some(filename)) != CERT_TYPE_KEY ==>
        && keys == old(keys)
        && (rc == 0 <==>
              && parse(Path(dir, filename)).Some?
              && forall d :: d in old(certs) ==>
                   d.fingerprint != Some(parse(Path(dir, filename)).value.fingerprint)
                   && d.path != Path(dir, filename))
        && (rc == 0 ==>
              && |certs| == |old(certs)| + 1 && certs[..|old(certs)|] == old(certs)
              && var c := certs[|certs| - 1];
                 fresh(c) && c.path == Path(dir, filename)
                 && c.certType == TypeFromFilename(Some(filename))
                 && c.ocert == parse(c.path) && c.fingerprint == Some(c.ocert.value.fingerprint)
                 && c.key == null && c.issuerCert == null
                 && (line.Some? ==> line.value == CertIndexLine(filename, c.certType, c.hashType,
                                                 c.fingerprint.value, c.commonName, c.subject)))
        && (rc == -1 ==> certs == old(certs))
    {
      var t := TypeFromFilename(Some(filename));
      line := None;
      rc := -1;
      if t == CERT_TYPE_KEY {
        var key := AddKey(dir, filename, mode, keyParse);
        if key != null {
          rc := 0;
          if indexOpen {
            line := Some(KeyIndexLine(filename));
          }
        }
      } else {
        var cert := AddCert(dir, filename, t, parse);
        if cert != null {
          rc := 0;
          if indexOpen {
            line := Some(CertIndexLine(filename, cert.certType, cert.hashType,
                                       cert.fingerprint.value, cert.commonName, cert.subject));
          }
        }
      }
    }

    /** The key branch of _add_certfile. */
    method AddKey(dir: string, filename: string, mode: Option<bv32>, keyParse: Path -> Option<PKey>)
      returns (key: Key?)
      requires Valid()
      modifies this
      ensures Valid() && certs == old(certs)
      ensures key != null <==>
        && mode.Some? && !KeyModeRefusedAsWritten(mode.value)
        && keyParse(Path(dir, filename)).Some?
        && forall d :: d in old(keys) ==> d.path != Path(dir, filename)
      ensures key != null ==>
        && keys == old(keys) + [key] && fresh(key) && key.path == Path(dir, filename)
        && key.okey == keyParse(key.path) && key.cert == null && key.allowedUses == CERT_IDENTITY
      ensures key == null ==> keys == old(keys)
    {
      key := NewKey(dir, filename, mode);
      if key == null {
        return;
      }
      var okey := key.OkeyGet(keyParse);
      if okey.None? {
        return null;
      }
      var ok := InsertKey(key);
      if !ok {
        return null;
      }
    }

    /** The certificate branch of _add_certfile, for a file of type `t`. */
    method AddCert(dir: string, filename: string, t: int, parse: Path -> Option<X509>)
      returns (cert: Cert?)
      requires Valid() && (t == CERT_TYPE_PEM || t == CERT_TYPE_DER)
      modifies this
      ensures Valid() && keys == old(keys)
      ensures cert != null <==>
        && parse(Path(dir, filename)).Some?
        && forall d :: d in old(certs) ==>
             d.fingerprint != Some(parse(Path(dir, filename)).value.fingerprint)
             && d.path != Path(dir, filename)
      ensures cert != null ==>
        && certs == old(certs) + [cert] && fresh(cert) && cert.path == Path(dir, filename)
        && cert.certType == t && cert.ocert == parse(cert.path)
        && cert.fingerprint == Some(cert.ocert.value.fingerprint)
        && cert.key == null && cert.issuerCert == null
      ensures cert == null ==> certs == old(certs)
    {
      cert := new Cert(dir, filename, t, -1, None, None, None);
      var ocert := cert.OcertGet(parse);
      if ocert.None? {
        return null;
      }
      var ok := InsertCert(cert);
      if !ok {
        return null;
      }
    }

    /** Every certificate in the store is a different object. */
    lemma CertsDistinct()
      requires Valid()
      ensures Distinct(certs)
    {
      forall i, j | 0 <= i < j < |certs|
        ensures certs[i] != certs[j]
      {
        assert certs[i].fingerprint != certs[j].fingerprint;
      }
    }

    /** Between two states the containers are the same, no partnership
        changed, no subject or fingerprint changed, and nothing already
        loaded changed: the calls in between only loaded missing
        certificates and keys (and perhaps linked issuers). */
    twostate predicate LoadsOnly()
      reads this, certs, keys
    {
      && certs == old(certs) && keys == old(keys)
      && (forall c :: c in certs ==>
            && c.key == old(c.key) && c.subject == old(c.subject)
            && c.fingerprint == old(c.fingerprint)
            && (old(c.ocert).Some? ==> c.ocert == old(c.ocert) && c.issuer == old(c.issuer)))
      && (forall k :: k in keys ==>
            k.cert == old(k.cert) && (old(k.okey).Some? ==> k.okey == old(k.okey)))
    }

    /** netsnmp_ocert_get on a stored certificate, which keeps the store
        valid. */
    method Load(c: Cert, parse: Path -> Option<X509>) returns (x: Option<X509>)
      requires Valid() && c in certs
      modifies c
      ensures Valid()
      ensures x == if old(c.ocert).Some? then old(c.ocert)
                   else if Readable(ResolvedType(old(c.certType), c.path.filename)) then parse(c.path)
                   else None
      ensures c.ocert == if x.Some? then x else old(c.ocert)
      ensures LoadsOnly() && forall d :: d in certs ==> d.issuerCert == old(d.issuerCert)
      ensures c.key == old(c.key) && c.issuerCert == old(c.issuerCert)
      ensures c.subject == old(c.subject) && c.fingerprint == old(c.fingerprint)
      ensures old(c.ocert).Some? ==> c.issuer == old(c.issuer)
    {
      x := c.OcertGet(parse);
    }

    /** `cand` issued `cert`: both are loaded and the issued-by check of
        the TLS library accepts the pair. */
    predicate Issues(cand: Cert, cert: Cert, issuedBy: (X509, X509) -> bool)
      reads cand, cert
    {
      cand.ocert.Some? && cert.ocert.Some? && issuedBy(cand.ocert.value, cert.ocert.value)
    }

    /** _find_issuer: among the certificates whose subject starts with the
        issuer name of `cert`, in container order, the first that can be
        loaded and that issued `cert`; null when there is none or `cert`
        names no issuer. Candidates are loaded along the way. */
    method FindIssuer(cert: Cert, parse: Path -> Option<X509>, issuedBy: (X509, X509) -> bool)
      returns (issuer: Cert?)
      requires Valid() && cert in certs
      modifies certs
      ensures Valid() && LoadsOnly()
      ensures forall c :: c in certs ==> c.issuerCert == old(c.issuerCert)
      ensures old(cert.issuer).None? ==> issuer == null
      ensures old(cert.issuer).Some? ==>
        var cands := old(SubjectMatches(certs, cert.issuer.value));
        && (issuer == null ==> forall k :: 0 <= k < |cands| ==> !Issues(cands[k], cert, issuedBy))
        && (issuer != null ==>
              exists n :: 0 <= n < |cands| && cands[n] == issuer && Issues(issuer, cert, issuedBy)
                && forall k :: 0 <= k < n ==> !Issues(cands[k], cert, issuedBy))
      ensures issuer != null ==>
        && issuer in certs && Issues(issuer, cert, issuedBy)
        && cert.issuer.Some? && issuer.subject.Some? && IsPrefix(cert.issuer.value, issuer.subject.value)
    {
      if cert.issuer.None? {
        return null;
      }
      var cands := SubjectMatches(certs, cert.issuer.value);
      CertsDistinct();
      SubjectMatchesDistinct(certs, cert.issuer.value);
      ghost var n;
      issuer, n := FirstIssuer(cands, cert, parse, issuedBy);
      assert cands == old(SubjectMatches(certs, cert.issuer.value));
      if issuer != null {
        assert 0 <= n < |cands| && cands[n] == issuer;
      }
    }

    /** The candidate loop of _find_issuer: loads each candidate in turn
        and stops at the first one that issued `cert`. */
    method FirstIssuer(cands: seq<Cert>, cert: Cert, parse: Path -> Option<X509>,
                       issuedBy: (X509, X509) -> bool)
      returns (issuer: Cert?, ghost n: int)
      requires Valid() && cert in certs && cert.ocert.Some? && Distinct(cands)
      requires forall k :: 0 <= k < |cands| ==> cands[k] in certs
      modifies certs
      ensures Valid() && LoadsOnly()
      ensures forall c :: c in certs ==> c.issuerCert == old(c.issuerCert)
      ensures issuer == null ==> forall k :: 0 <= k < |cands| ==> !Issues(cands[k], cert, issuedBy)
      ensures issuer != null ==>
        && 0 <= n < |cands| && cands[n] == issuer && Issues(issuer, cert, issuedBy)
        && forall k :: 0 <= k < n ==> !Issues(cands[k], cert, issuedBy)
    {
      issuer, n := null, -1;
      var i := 0;
      while issuer == null && i < |cands|
        invariant 0 <= i <= |cands|
        invariant Valid() && LoadsOnly()
        invariant forall c :: c in certs ==> c.issuerCert == old(c.issuerCert)
        invariant cert.ocert == old(cert.ocert)
        invariant issuer == null ==> forall k :: 0 <= k < i ==> !Issues(cands[k], cert, issuedBy)
        invariant issuer != null ==>
          && 0 < i && n == i - 1 && issuer == cands[n] && Issues(issuer, cert, issuedBy)
          && forall k :: 0 <= k < n ==> !Issues(cands[k], cert, issuedBy)
      {
        var hit := Probe(cands[i], cert, parse, issuedBy);
        if hit {
          issuer, n := cands[i], i;
        }
        i := i + 1;
      }
    }

    /** One candidate of _find_issuer: loaded if need be, then checked. */
    method Probe(cand: Cert, cert: Cert, parse: Path -> Option<X509>, issuedBy: (X509, X509) -> bool)
      returns (hit: bool)
      requires Valid() && cand in certs && cert in certs && cert.ocert.Some?
      modifies cand
      ensures Valid() && LoadsOnly()
      ensures cand.issuerCert == old(cand.issuerCert) && cert.ocert == old(cert.ocert)
      ensures hit <==> Issues(cand, cert, issuedBy)
    {
      var x := Load(cand, parse);
      hit := x.Some? && issuedBy(x.value, cert.ocert.value);
    }

    /** netsnmp_okey_get on a stored key, which keeps the store valid. */
    method LoadKey(k: Key, keyParse: Path -> Option<PKey>) returns (x: Option<PKey>)
      requires Valid() && k in keys
      modifies k
      ensures Valid() && LoadsOnly()
      ensures x == if old(k.okey).Some? then old(k.okey) else keyParse(k.path)
      ensures k.okey == if x.Some? then x else old(k.okey)
    {
      x := k.OkeyGet(keyParse);
    }

    /** Records `issuer`, which was checked to have issued `c`, as the
        issuer certificate of `c`. */
    method SetIssuer(c: Cert, issuer: Cert, ghost issuedBy: (X509, X509) -> bool)
      requires Valid() && c in certs && issuer in certs && c.issuerCert == null
      requires Issues(issuer, c, issuedBy) && c.issuer.Some? && issuer.subject.Some?
      requires IsPrefix(c.issuer.value, issuer.subject.value)
      modifies c
      ensures Valid() && LoadsOnly() && c.issuerCert == issuer && Justified(c, issuedBy)
      ensures forall d :: d in certs && d != c ==> d.issuerCert == old(d.issuerCert)
    {
      c.issuerCert := issuer;
    }

    /** The issuer link of `c` was checked: the linked certificate's
        subject starts with the issuer name of `c`, and the TLS library
        confirms that it issued `c`. */
    predicate Justified(c: Cert, issuedBy: (X509, X509) -> bool)
      reads c, c.issuerCert
    {
      && c.issuerCert != null && Issues(c.issuerCert, c, issuedBy)
      && c.issuer.Some? && c.issuerCert.subject.Some?
      && IsPrefix(c.issuer.value, c.issuerCert.subject.value)
    }

    /** One link of a loaded chain: `a` is loaded, names an issuer other
        than itself, is linked to `b`, and `b` is loaded. */
    predicate Linked(a: Cert, b: Cert)
      reads a, b
    {
      && a.ocert.Some? && a.issuer.Some? && a.issuer.value != SELF_SIGNED
      && a.issuerCert == b && b.ocert.Some?
    }

    /** The link from the `i`th certificate of `chain` to the next. */
    predicate LinkAt(chain: seq<Cert>, i: nat)
      requires i + 1 < |chain|
      reads chain[i], chain[i + 1]
    {
      Linked(chain[i], chain[i + 1])
    }

    /** The same link, as recorded in a snapshot. */
    ghost predicate SnapLinkAt(snap: map<Cert, View>, chain: seq<Cert>, i: nat)
      requires i + 1 < |chain|
    {
      && chain[i] in snap && chain[i + 1] in snap
      && snap[chain[i]].ocert.Some? && snap[chain[i]].issuer.Some?
      && snap[chain[i]].issuer.value != SELF_SIGNED
      && snap[chain[i]].issuerCert == chain[i + 1] && snap[chain[i + 1]].ocert.Some?
    }

    /** What the chain walk may change of each certificate, as it is now. */
    ghost function Snapshot(): map<Cert, View>
      reads this, certs
    {
      map c | c in certs :: View(c.key, c.subject, c.fingerprint, c.ocert, c.issuer, c.issuerCert)
    }

    /** Since `snap` was taken, every certificate kept its partner, subject
        and fingerprint, a loaded certificate kept what was loaded, an
        issuer link once set was kept, and every link set since is
        justified. */
    ghost predicate Since(snap: map<Cert, View>, issuedBy: (X509, X509) -> bool)
      requires Valid()
      reads this, certs, keys
    {
      && (forall c :: c in certs ==> c in snap)
      && forall c :: c in certs && c in snap ==>
        && c.key == snap[c].key && c.subject == snap[c].subject && c.fingerprint == snap[c].fingerprint
        && (snap[c].ocert.Some? ==> c.ocert == snap[c].ocert && c.issuer == snap[c].issuer)
        && (snap[c].issuerCert != null ==> c.issuerCert == snap[c].issuerCert)
        && (c.issuerCert != snap[c].issuerCert ==> c.issuerCert != null && Justified(c, issuedBy))
    }

    /** Nothing has changed since a snapshot of the current state. */
    lemma SinceSnapshot(issuedBy: (X509, X509) -> bool)
      requires Valid()
      ensures Since(Snapshot(), issuedBy)
    {
    }

    /** The links of a chain, as a snapshot records them. */
    lemma SnapshotLinks(cert: Cert, chain: seq<Cert>)
      requires ChainFrom(cert, chain)
      ensures forall i :: 0 <= i < |chain| - 1 ==> SnapLinkAt(Snapshot(), chain, i)
    {
      forall i | 0 <= i < |chain| - 1
        ensures SnapLinkAt(Snapshot(), chain, i)
      {
        assert LinkAt(chain, i);
      }
    }

    /** `chain` starts at `cert` and follows loaded issuer links through
        the store. */
    ghost predicate ChainFrom(cert: Cert, chain: seq<Cert>)
      reads this, certs
    {
      && |chain| >= 1 && chain[0] == cert
      && (forall i :: 0 <= i < |chain| ==> chain[i] in certs)
      && (forall i :: 0 <= i < |chain| - 1 ==> LinkAt(chain, i))
    }

    /** A chain that was loaded and linked when `snap` was taken still is. */
    lemma ChainKept(cert: Cert, chain: seq<Cert>, snap: map<Cert, View>, issuedBy: (X509, X509) -> bool)
      requires Valid() && Since(snap, issuedBy)
      requires |chain| >= 1 && chain[0] == cert && forall i :: 0 <= i < |chain| ==> chain[i] in certs
      requires forall i :: 0 <= i < |chain| - 1 ==> SnapLinkAt(snap, chain, i)
      ensures ChainFrom(cert, chain)
    {
      forall i | 0 <= i < |chain| - 1
        ensures LinkAt(chain, i)
      {
        assert SnapLinkAt(snap, chain, i);
        assert chain[i] in certs && chain[i + 1] in certs;
      }
    }

    /** A chain extended by a loaded link from its end is a chain. */
    lemma ChainExtend(cert: Cert, chain: seq<Cert>, next: Cert)
      requires ChainFrom(cert, chain) && next in certs && Linked(chain[|chain| - 1], next)
      ensures ChainFrom(cert, chain + [next])
    {
      var ext := chain + [next];
      forall i | 0 <= i < |ext| - 1
        ensures LinkAt(ext, i)
      {
        if i < |chain| - 1 {
          assert LinkAt(chain, i);
        }
      }
    }

    /** FindIssuer, keeping what two snapshots record of the store. */
    method FindIssuerSince(cert: Cert, parse: Path -> Option<X509>, issuedBy: (X509, X509) -> bool,
                           ghost snap: map<Cert, View>, ghost snap2: map<Cert, View>)
      returns (issuer: Cert?)
      requires Valid() && cert in certs && Since(snap, issuedBy) && Since(snap2, issuedBy)
      modifies certs
      ensures Valid() && LoadsOnly() && Since(snap, issuedBy) && Since(snap2, issuedBy)
      ensures forall c :: c in certs ==> c.issuerCert == old(c.issuerCert)
      ensures issuer != null ==>
        && issuer in certs && Issues(issuer, cert, issuedBy)
        && cert.issuer.Some? && issuer.subject.Some? && IsPrefix(cert.issuer.value, issuer.subject.value)
    {
      issuer := FindIssuer(cert, parse, issuedBy);
    }

    /** SetIssuer, keeping what two snapshots record of the store. */
    method SetIssuerSince(c: Cert, issuer: Cert, ghost issuedBy: (X509, X509) -> bool,
                          ghost snap: map<Cert, View>, ghost snap2: map<Cert, View>)
      requires Valid() && c in certs && issuer in certs && c.issuerCert == null
      requires Issues(issuer, c, issuedBy) && c.issuer.Some? && issuer.subject.Some?
      requires IsPrefix(c.issuer.value, issuer.subject.value)
      requires Since(snap, issuedBy) && Since(snap2, issuedBy)
      modifies c
      ensures Valid() && LoadsOnly() && c.issuerCert == issuer
      ensures Since(snap, issuedBy) && Since(snap2, issuedBy)
    {
      SetIssuer(c, issuer, issuedBy);
      forall d | d in certs
        ensures d.issuerCert != snap[d].issuerCert ==> d.issuerCert != null && Justified(d, issuedBy)
        ensures d.issuerCert != snap2[d].issuerCert ==> d.issuerCert != null && Justified(d, issuedBy)
      {
        if d != c && d.issuerCert != null {
          if d.issuerCert != snap[d].issuerCert || d.issuerCert != snap2[d].issuerCert {
            assert old(Justified(d, issuedBy));
            assert d.issuerCert in certs;
          }
        }
      }
    }

    /** Load, keeping what two snapshots record of the store. */
    method LoadSince(c: Cert, parse: Path -> Option<X509>, ghost issuedBy: (X509, X509) -> bool,
                     ghost snap: map<Cert, View>, ghost snap2: map<Cert, View>)
      returns (x: Option<X509>)
      requires Valid() && c in certs && Since(snap, issuedBy) && Since(snap2, issuedBy)
      modifies c
      ensures Valid() && LoadsOnly() && Since(snap, issuedBy) && Since(snap2, issuedBy)
      ensures forall d :: d in certs ==> d.issuerCert == old(d.issuerCert)
      ensures c.ocert == if x.Some? then x else old(c.ocert)
      ensures x.None? ==> c.ocert.None?
      ensures c.key == old(c.key)
    {
      x := Load(c, parse);
    }

    /** One step of load_x509's chain walk from `cur`, the end of `chain`,
        which names an issuer other than itself: the issuer is looked up
        when `cur` has no issuer link yet, and then loaded. The next
        certificate of the walk, or null when the step failed. */
    method ChainStep(cur: Cert, parse: Path -> Option<X509>, issuedBy: (X509, X509) -> bool,
                     ghost cert: Cert, ghost chain: seq<Cert>, ghost snap: map<Cert, View>)
      returns (next: Cert?)
      requires Valid() && cur.issuer.Some? && cur.issuer.value != SELF_SIGNED
      requires ChainFrom(cert, chain) && chain[|chain| - 1] == cur
      requires Since(snap, issuedBy)
      modifies certs
      ensures Valid() && certs == old(certs) && keys == old(keys)
      ensures Since(snap, issuedBy) && cur.issuer == old(cur.issuer)
      ensures cert.ocert == old(cert.ocert) && cert.key == old(cert.key)
      ensures next != null ==> next == cur.issuerCert && ChainFrom(cert, chain + [next])
      ensures next == null ==> ChainFrom(cert, chain) && (cur.issuerCert == null || cur.issuerCert.ocert.None?)
    {
      ghost var here := Snapshot();
      SinceSnapshot(issuedBy);
      SnapshotLinks(cert, chain);
      assert cur in certs && cert in here;
      assert cert.ocert.Some? by {
        if |chain| > 1 {
          assert LinkAt(chain, 0);
        }
      }
      next := null;
      var linked := LinkIssuer(cur, parse, issuedBy, snap, here);
      if linked {
        var x := LoadSince(cur.issuerCert, parse, issuedBy, snap, here);
        if x.Some? {
          next := cur.issuerCert;
        }
      }
      ChainKept(cert, chain, here, issuedBy);
      if next != null {
        ChainExtend(cert, chain, next);
      }
    }

    /** The issuer link of `cur` in a step of the chain walk: looked up
        and set when it is not set yet; false when no issuer is found. */
    method LinkIssuer(cur: Cert, parse: Path -> Option<X509>, issuedBy: (X509, X509) -> bool,
                      ghost snap: map<Cert, View>, ghost here: map<Cert, View>)
      returns (linked: bool)
      requires Valid() && cur in certs && Since(snap, issuedBy) && Since(here, issuedBy)
      modifies certs
      ensures Valid() && LoadsOnly() && Since(snap, issuedBy) && Since(here, issuedBy)
      ensures linked <==> cur.issuerCert != null
      ensures old(cur.issuerCert) != null ==> cur.issuerCert == old(cur.issuerCert)
    {
      linked := true;
      if cur.issuerCert == null {
        var found := FindIssuerSince(cur, parse, issuedBy, snap, here);
        if found == null {
          linked := false;
        } else {
          SetIssuerSince(cur, found, issuedBy, snap, here);
        }
      }
    }

    /** The first part of netsnmp_cert_load_x509: loads `cert` and its key
        where they are not loaded yet; -1 when either cannot be loaded. */
    method LoadOwn(cert: Cert, parse: Path -> Option<X509>, keyParse: Path -> Option<PKey>,
                   ghost issuedBy: (X509, X509) -> bool, ghost snap: map<Cert, View>)
      returns (rc: int)
      requires Valid() && cert in certs && Since(snap, issuedBy)
      modifies certs, keys
      ensures Valid() && certs == old(certs) && keys == old(keys)
      ensures Since(snap, issuedBy) && cert.key == old(cert.key)
      ensures rc == 0 <==> cert.ocert.Some? && (cert.key != null ==> cert.key.okey.Some?)
      ensures rc == -1 <==> rc != 0
    {
      rc := 0;
      if cert.ocert.None? {
        var x := LoadSince(cert, parse, issuedBy, snap, snap);
        if x.None? {
          rc := -1;
        }
      }
      if cert.key != null && cert.key.okey.None? {
        var k := LoadKey(cert.key, keyParse);
        if k.None? {
          rc := -1;
        }
      }
    }

    /** The chain walk of netsnmp_cert_load_x509 from `cert`: follows (and
        sets, where missing) issuer links until a self-signed certificate
        (true), an issuer that cannot be found or loaded (false), or a walk
        longer than the store, which must have come back to a certificate
        it passed (false). */
    method WalkChain(cert: Cert, parse: Path -> Option<X509>, issuedBy: (X509, X509) -> bool,
                     ghost snap: map<Cert, View>)
      returns (ok: bool, ghost chain: seq<Cert>)
      requires Valid() && cert in certs && Since(snap, issuedBy)
      modifies certs
      ensures Valid() && certs == old(certs) && keys == old(keys)
      ensures Since(snap, issuedBy) && cert.ocert == old(cert.ocert) && cert.key == old(cert.key)
      ensures cert.key != null ==> cert.key.okey == old(cert.key.okey)
      ensures ChainFrom(cert, chain)
      ensures ok ==> chain[|chain| - 1].issuer.None? || chain[|chain| - 1].issuer == Some(SELF_SIGNED)
      ensures chain[|chain| - 1].issuer.None? ==> |chain| == 1 && cert.ocert.None?
      ensures !ok ==>
        var last := chain[|chain| - 1];
        && last.issuer.Some? && last.issuer.value != SELF_SIGNED
        && (last.issuerCert == null || last.issuerCert.ocert.None? || !Distinct(chain))
    {
      var cur := cert;
      chain := [cert];
      var steps := 0;
      ok := true;
      while cur.issuer.Some?
        invariant Valid() && certs == old(certs) && keys == old(keys)
        invariant Since(snap, issuedBy) && cert.ocert == old(cert.ocert) && cert.key == old(cert.key)
        invariant ChainFrom(cert, chain) && chain[|chain| - 1] == cur
        invariant cur.issuer.None? ==> |chain| == 1
        invariant |chain| == steps + 1 <= |certs| + 1
        decreases |certs| - steps
      {
        if cur.issuer.value == SELF_SIGNED {
          return;
        }
        if steps == |certs| {
          Pigeonhole(chain, certs);
          return false, chain;
        }
        var next := ChainStep(cur, parse, issuedBy, cert, chain, snap);
        if next == null {
          return false, chain;
        }
        chain := chain + [next];
        assert LinkAt(chain, |chain| - 2);
        cur := next;
        steps := steps + 1;
      }
    }

    /** netsnmp_cert_load_x509: loads `cert`, its key, and the chain of
        issuers up to a self-signed certificate. 0 when all of it is
        loaded; -1 when the certificate or its key cannot be loaded (the
        walk still runs) or when the walk fails. `chain` is the walk. */
    method LoadX509(cert: Cert, parse: Path -> Option<X509>, keyParse: Path -> Option<PKey>,
                    issuedBy: (X509, X509) -> bool)
      returns (rc: int, ghost chain: seq<Cert>)
      requires Valid() && cert in certs
      modifies certs, keys
      ensures Valid() && certs == old(certs) && keys == old(keys)
      ensures Since(old(Snapshot()), issuedBy)
      ensures ChainFrom(cert, chain)
      ensures rc == 0 || rc == -1
      ensures rc == 0 <==>
        && cert.ocert.Some? && (cert.key != null ==> cert.key.okey.Some?)
        && chain[|chain| - 1].issuer == Some(SELF_SIGNED)
      ensures rc == -1 && cert.ocert.Some? && (cert.key != null ==> cert.key.okey.Some?) ==>
        var last := chain[|chain| - 1];
        && last.issuer.Some? && last.issuer.value != SELF_SIGNED
        && (last.issuerCert == null || last.issuerCert.ocert.None? || !Distinct(chain))
    {
      ghost var snap := Snapshot();
      SinceSnapshot(issuedBy);
      rc := LoadOwn(cert, parse, keyParse, issuedBy, snap);
      var ok;
      ok, chain := WalkChain(cert, parse, issuedBy, snap);
      if !ok {
        rc := -1;
      }
      assert snap == old(Snapshot());
    }

    /** The certificate netsnmp_cert_find looks up before its use gate.
        With the default location, an identity is looked up by the
        configured server or client certificate fingerprint (`isServer`
        is the hint), and a remote peer by the server one; with the
        fingerprint location, by the fingerprint the hint holds. Other
        uses of the default location, the target-address location and
        unknown locations find nothing. */
    function Located(what: bv32, where: int, isServer: bool, hintFp: Option<string>,
                     serverPub: Option<string>, clientPub: Option<string>): (r: Option<Cert>)
      reads this, certs
      ensures r.Some? ==> r.value in certs && (where == CERTKEY_DEFAULT || where == CERTKEY_FINGERPRINT)
      ensures where == CERTKEY_DEFAULT && what != CERT_IDENTITY as bv32 && what != CERT_REMOTE_PEER as bv32
              ==> r.None?
      ensures where == CERTKEY_FINGERPRINT ==>
        && (r.Some? ==> hintFp.Some? && r.value.fingerprint == Some(Normalize(hintFp.value)))
        && (r.None? ==> hintFp.None? || |hintFp.value| >= FP_TEXT_SIZE
                         || forall c :: c in certs ==> c.fingerprint != Some(Normalize(hintFp.value)))
    {
      if where == CERTKEY_DEFAULT then
        if what == CERT_IDENTITY as bv32 then FindFp(if isServer then serverPub else clientPub)
        else if what == CERT_REMOTE_PEER as bv32 then FindFp(serverPub)
        else None
      else if where == CERTKEY_FINGERPRINT then FindFp(hintFp)
      else None
    }

    /** A certificate in a valid store is what a lookup by any spelling of
        its fingerprint that fits the key buffer finds, and a remote peer is
        found through the configured server fingerprint whatever the hint
        says. A spelling too long for the buffer finds nothing. */
    lemma LocatedByFingerprint(c: Cert, what: bv32, hint: string, isServer: bool,
                               serverPub: Option<string>, clientPub: Option<string>)
      requires Valid() && c in certs && c.fingerprint == Some(Normalize(hint))
      ensures Located(what, CERTKEY_FINGERPRINT, isServer, Some(hint), serverPub, clientPub)
              == if |hint| < FP_TEXT_SIZE then Some(c) else None
      ensures Located(CERT_REMOTE_PEER as bv32, CERTKEY_DEFAULT, isServer, None, Some(hint), clientPub)
              == if |hint| < FP_TEXT_SIZE then Some(c) else None
    {
      if |hint| >= FP_TEXT_SIZE {
        return;
      }
      var r := FindFp(Some(hint));
      assert r.Some?;
      var i :| 0 <= i < |certs| && certs[i] == r.value;
      var j :| 0 <= j < |certs| && certs[j] == c;
      if i != j {
        assert false;
      }
    }

    /** netsnmp_cert_find: the located certificate, provided one of its
        allowed uses is the requested one and it loads together with its
        key and issuer chain up to a self-signed certificate; null
        otherwise. Nothing is loaded when the lookup or the gate fails.
        `chain` is the chain walk of the load. */
    method CertFind(what: bv32, where: int, isServer: bool, hintFp: Option<string>,
                    serverPub: Option<string>, clientPub: Option<string>,
                    parse: Path -> Option<X509>, keyParse: Path -> Option<PKey>,
                    issuedBy: (X509, X509) -> bool)
      returns (result: Cert?, ghost chain: seq<Cert>)
      requires Valid()
      modifies certs, keys
      ensures Valid() && certs == old(certs) && keys == old(keys)
      ensures Since(old(Snapshot()), issuedBy)
      ensures var found := old(Located(what, where, isServer, hintFp, serverPub, clientPub));
        && (found.None? ==> result == null && unchanged(certs) && unchanged(keys))
        && (found.Some? && !UseAllowed(old(found.value.allowedUses), what) ==>
              result == null && unchanged(certs) && unchanged(keys))
        && (found.Some? && UseAllowed(old(found.value.allowedUses), what) ==>
              && ChainFrom(found.value, chain)
              && (result != null <==>
                    && found.value.ocert.Some?
                    && (found.value.key != null ==> found.value.key.okey.Some?)
                    && chain[|chain| - 1].issuer == Some(SELF_SIGNED))
              && (result != null ==> result == found.value))
    {
      chain := [];
      SinceSnapshot(issuedBy);
      var found := Located(what, where, isServer, hintFp, serverPub, clientPub);
      if found.None? {
        return null, chain;
      }
      result := found.value;
      if !UseAllowed(result.allowedUses, what) {
        return null, chain;
      }
      var rc;
      var cert := result;
      rc, chain := LoadX509(cert, parse, keyParse, issuedBy);
      if rc < 0 {
        result := null;
      }
      assert result != null <==> rc == 0;
    }
  }

  /** The subject matches of distinct certificates are distinct. */
  lemma {:induction false} SubjectMatchesDistinct(cs: seq<Cert>, prefix: string)
    requires Distinct(cs)
    ensures Distinct(SubjectMatches(cs, prefix))
  {
    if |cs| > 0 {
      var rest := SubjectMatches(cs[1..], prefix);
      assert Distinct(cs[1..]) by {
        forall i, j | 0 <= i < j < |cs[1..]| ensures cs[1..][i] != cs[1..][j] {
          assert cs[1..][i] == cs[i + 1] && cs[1..][j] == cs[j + 1];
        }
      }
      SubjectMatchesDistinct(cs[1..], prefix);
      assert cs[0] !in rest by {
        forall k | 0 <= k < |rest| ensures rest[k] != cs[0] {
          assert rest[k] in cs[1..];
        }
      }
    }
  }
}
