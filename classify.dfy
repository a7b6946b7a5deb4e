/** Classifying certificate and key files by their file-name extension. */
module Classify {
  import opened Optional
  import opened CStr
  import opened CertConst

  /** The registered extensions and the certificate type each one selects. */
  const CERT_TYPES: map<string, int> := map[
    "pem" := CERT_TYPE_PEM,
    "crt" := CERT_TYPE_DER, "cer" := CERT_TYPE_DER, "cert" := CERT_TYPE_DER,
    "der" := CERT_TYPE_DER,
    "key" := CERT_TYPE_KEY, "private" := CERT_TYPE_KEY]

  /** _cert_ext_type: the type registered for an extension, UNKNOWN when the
      extension is not in the table (the match is exact and case-sensitive). */
  function ExtType(ext: string): (t: int)
    ensures t == CERT_TYPE_PEM <==> ext == "pem"
    ensures t == CERT_TYPE_DER <==> ext in {"crt", "cer", "cert", "der"}
    ensures t == CERT_TYPE_KEY <==> ext in {"key", "private"}
    ensures t == CERT_TYPE_UNKNOWN <==> ext !in {"pem", "crt", "cer", "cert", "der", "key", "private"}
  {
    if ext in CERT_TYPES then CERT_TYPES[ext] else CERT_TYPE_UNKNOWN
  }

  /** The text after the last `.` of a file name, if it has a `.` at all. */
  function Extension(filename: string): (ext: Option<string>)
    ensures ext.None? <==> '.' !in filename
    ensures ext.Some? ==> '.' !in ext.value
    ensures ext.Some? ==> exists stem :: filename == stem + "." + ext.value
  {
    match LastIndexOf(filename, '.')
    case None => None
    case Some(i) =>
      var e := filename[i + 1..];
      assert filename == filename[..i] + "." + e;
      assert forall k :: 0 <= k < |e| ==> e[k] == filename[i + 1 + k];
      Some(e)
  }

  /** _type_from_filename: the type of a (possibly NULL) file name, from its
      extension; UNKNOWN without a name or without a `.`. */
  function TypeFromFilename(filename: Option<string>): (t: int)
    ensures filename.None? ==> t == CERT_TYPE_UNKNOWN
    ensures filename.Some? && '.' !in filename.value ==> t == CERT_TYPE_UNKNOWN
    ensures filename.Some? && Extension(filename.value).Some? ==>
      t == ExtType(Extension(filename.value).value)
  {
    match filename
    case None => CERT_TYPE_UNKNOWN
    case Some(fn) =>
      match Extension(fn)
      case None => CERT_TYPE_UNKNOWN
      case Some(ext) => ExtType(ext)
  }

  /** _cert_cert_filter: the directory scan keeps a file (1) or skips it (0).
      The shortest acceptable name is five characters, such as `x.pem`. */
  function CertCertFilter(filename: string): (keep: int)
    ensures keep == 0 || keep == 1
    ensures keep == 1 ==> |filename| >= 5
  {
    if |filename| < 5 then 0
    else match Extension(filename)
      case None => 0
      case Some(ext) => if ExtType(ext) != CERT_TYPE_UNKNOWN then 1 else 0
  }

  /** The extensions the directory scan accepts. */
  const KNOWN_EXTENSIONS: set<string> := {"pem", "crt", "cer", "cert", "der", "key", "private"}

  /** The filter keeps exactly the names of at least five characters whose
      text after the last `.` is a registered extension. */
  lemma CertCertFilterIff(filename: string)
    ensures CertCertFilter(filename) == 1 <==>
      |filename| >= 5 && Extension(filename).Some? && Extension(filename).value in KNOWN_EXTENSIONS
  {
  }

  /** Every file the scan keeps has a known type, so the scan never files an
      UNKNOWN entry. */
  lemma FilteredHasType(filename: string)
    requires CertCertFilter(filename) == 1
    ensures TypeFromFilename(Some(filename)) in {CERT_TYPE_PEM, CERT_TYPE_DER, CERT_TYPE_KEY}
  {
  }

  /** Only the last `.` counts: `a.pem.bak` is skipped, `a.bak.pem` kept. */
  lemma LastDotDecides()
    ensures CertCertFilter("a.pem.bak") == 0
    ensures CertCertFilter("a.bak.pem") == 1
    ensures TypeFromFilename(Some("snmpd")) == CERT_TYPE_UNKNOWN
  {
    var s1, s2 := "a.pem.bak", "a.bak.pem";
    assert s1[5] == '.' && s1[5 + 1..] == "bak";
    assert s2[5] == '.' && s2[5 + 1..] == "pem";
    assert LastIndexOf(s1, '.') == Some(5);
    assert LastIndexOf(s2, '.') == Some(5);
    assert '.' !in "snmpd";
  }
}
