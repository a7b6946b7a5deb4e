# net-snmp certificate trust store, modelled in Dafny

This project models the certificate and key store behind net-snmp's TLS and
DTLS transports: `snmplib/cert_util.c` and the record types and constants of
`include/net-snmp/library/cert_util.h`.

The modelled store:

- **Loading.** It reads certificate (`.pem`, `.crt`, `.cer`, `.cert`,
  `.der`) and key (`.key`, `.private`) files found in configured
  directories. An index cache per directory records what it found.
- **Partnering.** It pairs each key with its certificate through a
  file-name prefix query. The result is narrowed by the file's extension
  and then by its parent directory.
- **Lookup.** Certificates are looked up by fingerprint. The fingerprint is
  normalised first: lower-cased, with colons removed. A lookup succeeds
  only when the certificate's allowed uses include the requested one and
  the issuer chain up to a self-signed certificate can be loaded.
- **Secname rules.** `certSecName` configuration lines become rules that
  map a fingerprint to an SNMP security name. The rules are resolved
  against a table of candidate fingerprints.
- **Varbind check.** It checks the fingerprint value of a SET request.

The model's building blocks are:

- **Records.** `netsnmp_cert`, `netsnmp_key` and `netsnmp_cert_map` are
  classes whose fields the operations update in place.
- **Containers.** The netsnmp containers are sequences of those objects,
  held by the `CertStore.Store` and `SecnameMap.MapTable` classes.
- **Match arrays.** The `netsnmp_void_array` a subset query returns is an
  array that the reduction loops compact in place (`Subset.MatchArray`).
- **External effects.** OpenSSL, the file system and the configuration
  reader are parameters of the operations that use them:
  - `parse` reads a certificate file;
  - `keyParse` reads a key file;
  - `issuedBy` is OpenSSL's issued-by check;
  - file modes, stat results and configuration tokens are passed in as
    values.

Modules:

| module | file | what it holds |
|---|---|---|
| `Optional` | optional.dfy | the `Option` type |
| `Seqs` | seqs.dfy | filtering and distinctness of sequences |
| `CStr` | cstr.dfy | `strcmp`, `strncmp`, `strrchr`, `tolower`, `atoi` and `%d` printing, with their properties |
| `CertConst` | cert_const.dfy | the header's constants: types, uses, hash codes, map types, file modes |
| `Classify` | classify.dfy | extension table and file classification |
| `CertRecords` | records.dfy | key, certificate and map records, `_new_key`, `ocert_get`, `okey_get` |
| `Orderings` | orderings.dfy | every container comparator, with antisymmetry and transitivity |
| `Fingerprint` | fingerprint.dfy | fingerprint normalisation, in place and as a function, and the lookup key buffer |
| `CacheIndex` | cache.dfy | the per-directory index: header, entry lines and the staleness checks |
| `Subset` | subset.dfy | the subset arrays and their two reductions |
| `CertStore` | store.dfy | the store: insertion, partnering, issuer search, chain loading, `netsnmp_cert_find` |
| `SecnameMap` | secname.dfy | the rule table, `certSecName` parsing and `netsnmp_cert_get_secname_maps` |
| `Varbind` | varbind.dfy | `netsnmp_cert_check_vb_fingerprint` |

Source paths below are relative to the repository root. Line numbers are
those of `net-snmp/snmplib/cert_util.c` and
`net-snmp/include/net-snmp/library/cert_util.h`.

## Model

| member | source | states |
|---|---|---|
| CertConst.UseSet | net-snmp/include/net-snmp/library/cert_util.h:60-63 | The four use flags are independent bits: any combination stays below 16 and each flag can be read back from it. |
| CertConst.UseSetCoversModeRange | net-snmp/include/net-snmp/library/cert_util.h:60-63 | Every value below 16 is exactly one combination of the four use flags. |
| CertConst.AddUse | net-snmp/snmplib/cert_util.c:1114-1115 | Granting a use sets its bit and keeps every use already granted. |
| CertConst.ModeNamesOfFlags | net-snmp/snmplib/cert_util.c:102-119 | Any combination of use flags indexes the 16-entry mode-name table in range; each single flag is named after itself and no flag is "none". |
| Classify.ExtType | net-snmp/snmplib/cert_util.c:580-587 | An extension is PEM exactly for `pem`, DER exactly for `crt`/`cer`/`cert`/`der`, a key exactly for `key`/`private`, and unknown for anything else. |
| Classify.Extension | net-snmp/snmplib/cert_util.c:598-602 | The text after the last `.`, which holds no `.`; nothing exactly when the name has no `.`. |
| Classify.TypeFromFilename | net-snmp/snmplib/cert_util.c:589-604 | A missing name or a name without `.` is of unknown type; otherwise the type is that of the extension after the last `.`. |
| Classify.CertCertFilter | net-snmp/snmplib/cert_util.c:609-626 | The directory filter returns 0 or 1, and 1 only for names of at least five characters. |
| Classify.CertCertFilterIff | net-snmp/snmplib/cert_util.c:609-626 | A file is kept exactly when its name has at least five characters and its last extension is registered. |
| Classify.FilteredHasType | net-snmp/snmplib/cert_util.c:1171-1172 | A file the filter keeps has a known type, which `_add_certfile` asserts. |
| Classify.LastDotDecides | net-snmp/snmplib/cert_util.c:609-626 | Only the last extension counts: `a.pem.bak` is skipped, `a.bak.pem` is kept. |
| CStr.Strcmp | net-snmp/snmplib/cert_util.c:468-477 | The comparison result is -1, 0 or 1. |
| CStr.StrcmpZeroIff | net-snmp/snmplib/cert_util.c:468-477 | strcmp gives 0 exactly for equal strings. |
| CStr.StrcmpAntisymmetric | net-snmp/snmplib/cert_util.c:468-477 | Swapping the operands negates strcmp's result. |
| CStr.StrcmpTransitive | net-snmp/snmplib/cert_util.c:468-477 | strcmp's "less than" is transitive. |
| CStr.Strncmp | net-snmp/snmplib/cert_util.c:562-569 | The bounded comparison result is -1, 0 or 1. |
| CStr.StrncmpZeroIff | net-snmp/snmplib/cert_util.c:562-569 | strncmp gives 0 exactly when the first n characters agree. |
| CStr.StrncmpPrefix | net-snmp/snmplib/cert_util.c:562-569 | Comparing with a probe's length gives 0 exactly when the probe is a prefix of the stored string. |
| CStr.StrncmpPrefixLeft | net-snmp/snmplib/cert_util.c:1900 | Comparing the parent directory over its own length gives 0 exactly when it is a prefix of the other string. |
| CStr.LastIndexOf | net-snmp/snmplib/cert_util.c:598 | strrchr finds the last occurrence of the character, and nothing exactly when the character is absent. |
| CStr.ToLower | net-snmp/snmplib/cert_util.c:1630 | tolower leaves no upper-case letter, keeps letters letters and leaves every other character alone. |
| CStr.AtoiOfIntToString | net-snmp/snmplib/cert_util.c:780 | A number printed with `%d` and followed by a non-digit reads back through atoi as the same number. |
| CStr.AtoiOfNatural | net-snmp/snmplib/cert_util.c:1313 | A non-negative printed number reads back through atoi. |
| CStr.AtoiOfNegative | net-snmp/snmplib/cert_util.c:1313 | A negative printed number reads back through atoi. |
| Fingerprint.NormalizeIsNormal | net-snmp/snmplib/cert_util.c:1615-1642 | A normalised fingerprint holds no `:` and no upper-case letter; its length is the input's minus the colons. |
| Fingerprint.NormalizeFixesNormal | net-snmp/snmplib/cert_util.c:1615-1642 | A fingerprint already in normal form is left as it is. |
| Fingerprint.NormalizeIdempotent | net-snmp/snmplib/cert_util.c:1615-1642 | Normalising twice is the same as normalising once. |
| Fingerprint.NormalizeAppend | net-snmp/snmplib/cert_util.c:1615-1642 | Normalisation works character by character: the two halves of a string are normalised independently. |
| Fingerprint.NormalizeSnoc | net-snmp/snmplib/cert_util.c:1615-1642 | Appending a character appends its lower-case form, or nothing for a `:`. |
| Fingerprint.NormalizeExample | net-snmp/snmplib/cert_util.c:1615-1642 | `AA:BB:cc` normalises to `aabbcc`. |
| Fingerprint.NormalizeNoNul | net-snmp/snmplib/cert_util.c:1615-1642 | Normalisation introduces no NUL. |
| Fingerprint.LowercaseAndStripColon | net-snmp/snmplib/cert_util.c:1615-1642 | The in-place rewrite leaves the normal form of the C string, NUL-terminated, at the start of the buffer. Nothing after the old terminator changes, and a NULL buffer is left alone. |
| Fingerprint.Strncpy | net-snmp/snmplib/cert_util.c:1790 | strncpy fills exactly `size` characters: the source, then NULs. |
| Fingerprint.KeyBufferAsWritten | net-snmp/snmplib/cert_util.c:1785-1791 | Copying a fingerprint of EVP_MAX_MD_SIZE or more characters into the key buffer leaves no terminator. |
| Fingerprint.KeyBufferAsWrittenExample | net-snmp/snmplib/cert_util.c:1785-1791 | The 64-character hex text of a SHA-256 fingerprint is left unterminated. |
| Fingerprint.SearchKey | net-snmp/snmplib/cert_util.c:1781-1800 | With a buffer sized for the largest digest's text, the search key is the normal form of the whole fingerprint. A fingerprint too long for any digest is not looked up. |
| Fingerprint.LookupKey | net-snmp/snmplib/cert_util.c:1781-1800 | There is a search key exactly when the fingerprint fits the corrected key buffer. The key is then in normal form and no longer than the fingerprint. |
| CacheIndex.NewerFiles | net-snmp/snmplib/cert_util.c:2003-2013 | The scan keeps exactly the files newer than the index (by mtime or ctime), and is empty exactly when no file is. |
| CacheIndex.HeaderVersion | net-snmp/snmplib/cert_util.c:1309-1315 | The format number is read after the last space of the first line, and there is none when the line has no space. |
| CacheIndex.IndexUsableIff | net-snmp/snmplib/cert_util.c:1250-1320 | A cached index is used exactly when it exists, the directory and every file are strictly older than it, it opens, and it has the current format. |
| CacheIndex.HeaderLine | net-snmp/snmplib/cert_util.c:780 | The header line starts `DIR ` and ends in a newline. |
| CacheIndex.Fgets | net-snmp/snmplib/cert_util.c:1309 | fgets returns a prefix of the text that fits the buffer and has no newline before its last character. The read stops only at the end of the text, at the buffer limit, or just after the first newline. |
| CacheIndex.FgetsWholeLine | net-snmp/snmplib/cert_util.c:719 | A whole line that fits the buffer is read back unchanged. |
| CacheIndex.HeaderRoundTrip | net-snmp/snmplib/cert_util.c:719-726 | The directory written into an index header is the directory read back from it. |
| CacheIndex.HeaderVersionOfHeaderLine | net-snmp/snmplib/cert_util.c:1309-1320 | A freshly written header carries the current format number, so the index passes the format check. |
| CacheIndex.CertIndexLine | net-snmp/snmplib/cert_util.c:1223-1225 | A certificate entry is a `c:` line that starts with the file name and ends in a newline. |
| CacheIndex.KeyIndexLine | net-snmp/snmplib/cert_util.c:1226-1227 | A key entry is `k:`, the file name and a newline. |
| CertRecords.UChar | net-snmp/include/net-snmp/library/cert_util.h:23-30 | Storing an int in a `u_char` field keeps it modulo 256, and values below 256 unchanged. |
| CertRecords.Key.constructor | net-snmp/snmplib/cert_util.c:395-408 | A new key record has its path, the key type, the identity use, no key loaded and no partner. |
| CertRecords.Key.OkeyGet | net-snmp/snmplib/cert_util.c:953-992 | An already loaded key is returned as is; otherwise the file is read, and the key is recorded only when reading succeeds. Nothing else changes. |
| CertRecords.Cert.constructor | net-snmp/snmplib/cert_util.c:332-368 | A new certificate record has its path and the given type, the remote-peer use, and the given fingerprint and names. The hash type is kept only with a fingerprint. Nothing is loaded or linked. |
| CertRecords.Cert.OcertGet | net-snmp/snmplib/cert_util.c:795-951 | A loaded certificate is returned unchanged. Otherwise an unknown type is resolved from the file name, only readable types are parsed, and a failed parse leaves the record unloaded. A successful parse records the certificate's data. |
| CertRecords.Cert.Record | net-snmp/snmplib/cert_util.c:913-949 | Records the certificate, its CA use, subject, issuer (or self-signed), fingerprint with hash type, and common name. |
| CertRecords.ResolvedType | net-snmp/snmplib/cert_util.c:810-817 | A known type is kept; an unknown type is taken from the file name. |
| CertRecords.IssuerName | net-snmp/snmplib/cert_util.c:923-936 | The issuer is recorded as "self-signed" exactly when subject and issuer agree (or the issuer is literally that text), and as the issuer name otherwise. |
| CertRecords.CertMap.constructor | net-snmp/snmplib/cert_util.c:2029 | A new map entry is zero-filled. |
| CertRecords.AsWrittenAcceptsWorldWritable | net-snmp/snmplib/cert_util.c:389-393 | As written, the mode check accepts a world-writable key file (mode 0602). |
| CertRecords.KeyModeRefusedMeaning | net-snmp/snmplib/cert_util.c:389-393 | The corrected check refuses a key file exactly when it is world-readable or world-writable. The written check refuses only world-readable files, a subset of those. |
| CertRecords.NewKey | net-snmp/snmplib/cert_util.c:370-411 | A key record is made exactly when the file can be stat'ed and the mode passes the test as written, which checks world-readability twice (see Findings). The record is then a fresh, unloaded, unpartnered identity key for that path. |
| Orderings.IntCompare | net-snmp/snmplib/cert_util.c:2075-2078 | The priority comparison is 0 exactly for equal values and negative exactly for a smaller left value. |
| Orderings.CertCompare | net-snmp/snmplib/cert_util.c:468-477 | Certificates compare equal exactly when their fingerprints are equal. |
| Orderings.PathCompare | net-snmp/snmplib/cert_util.c:479-493 | Paths compare equal exactly when directory and file name both agree. |
| Orderings.CnCompare | net-snmp/snmplib/cert_util.c:495-519 | The common-name index treats records as equal exactly when common name (absent counts as empty) and path agree. |
| Orderings.SnCompare | net-snmp/snmplib/cert_util.c:521-545 | The subject index treats records as equal exactly when subject (absent counts as empty) and path agree. |
| Orderings.FnCompare | net-snmp/snmplib/cert_util.c:547-560 | File names order first, then directories; equal exactly for the same path. |
| Orderings.FnNcompare | net-snmp/snmplib/cert_util.c:562-569 | The file-name subset query matches exactly the stored names that start with the probe. |
| Orderings.SnNcompare | net-snmp/snmplib/cert_util.c:571-578 | The subject subset query matches exactly the stored subjects that start with the probe. |
| Orderings.MapCompare | net-snmp/snmplib/cert_util.c:2070-2081 | Rules order by priority first; equal exactly when priority and fingerprint agree. |
| Orderings.MapFpCompare | net-snmp/snmplib/cert_util.c:2083-2098 | The fingerprint index treats rules as equal exactly when priority and fingerprint agree. |
| Orderings.MapFpNcompare | net-snmp/snmplib/cert_util.c:2100-2107 | The fingerprint subset query matches exactly the rules whose fingerprint starts with the probe. |
| Orderings.PathCompareAntisymmetric | net-snmp/snmplib/cert_util.c:479-493 | Swapping operands negates the result. |
| Orderings.PathCompareTransitive | net-snmp/snmplib/cert_util.c:479-493 | The ordering is transitive, as a sorted container needs. |
| Orderings.FnCompareAntisymmetric | net-snmp/snmplib/cert_util.c:547-560 | Swapping operands negates the result. |
| Orderings.FnCompareTransitive | net-snmp/snmplib/cert_util.c:547-560 | The ordering is transitive. |
| Orderings.SnCompareAntisymmetric | net-snmp/snmplib/cert_util.c:521-545 | Swapping operands negates the result. |
| Orderings.SnCompareTransitive | net-snmp/snmplib/cert_util.c:521-545 | The ordering is transitive. |
| Orderings.CnCompareAntisymmetric | net-snmp/snmplib/cert_util.c:495-519 | Swapping operands negates the result. |
| Orderings.CnCompareTransitive | net-snmp/snmplib/cert_util.c:495-519 | The ordering is transitive. |
| Orderings.MapCompareAntisymmetric | net-snmp/snmplib/cert_util.c:2070-2081 | Swapping operands negates the result. |
| Orderings.MapCompareTransitive | net-snmp/snmplib/cert_util.c:2070-2081 | The ordering is transitive. |
| Orderings.MapFpCompareAntisymmetric | net-snmp/snmplib/cert_util.c:2083-2098 | Swapping operands negates the result. |
| Orderings.MapFpCompareTransitive | net-snmp/snmplib/cert_util.c:2083-2098 | The ordering is transitive. |
| Subset.MatchArray.constructor | net-snmp/snmplib/cert_util.c:1937 | A subset array holds exactly the matches, in order. |
| Subset.MatchArray.Compact | net-snmp/snmplib/cert_util.c:1807-1855 | The shift-down loop keeps exactly the entries that pass the test, in order. The vacated slots become NULL, and slots past the old size are untouched. |
| Subset.MatchArray.ReduceSubset | net-snmp/snmplib/cert_util.c:1807-1855 | Keeps exactly the entries whose name continues the stem with `.` and a registered extension. |
| Subset.MatchArray.ReduceSubsetDir | net-snmp/snmplib/cert_util.c:1861-1923 | Keeps exactly the entries whose directory starts with the parent of the given directory. A directory without `/` leaves the array unchanged. |
| Subset.ShiftDown | net-snmp/snmplib/cert_util.c:1841-1844 | One shift moves the tail down a slot and NULLs the last one. |
| Subset.StemMatchIff | net-snmp/snmplib/cert_util.c:1830-1835 | A name starting with the stem is kept exactly when it is the stem, `.`, and a registered extension. |
| Subset.StemMatchExamples | net-snmp/snmplib/cert_util.c:1830-1835 | `snmp.key` matches stem `snmp`; `snmpd.key` and `snmp.key.bak` do not. |
| Subset.ParentDir | net-snmp/snmplib/cert_util.c:1880-1887 | The parent is the directory up to its last `/`, and there is none when it has no `/`. |
| Subset.DirKeepIff | net-snmp/snmplib/cert_util.c:1899-1903 | An entry is kept exactly when its directory starts with the parent. |
| CertStore.FindFingerprint | net-snmp/snmplib/cert_util.c:1796-1798 | Finds a stored certificate with the fingerprint, and finds nothing only when none has it. |
| CertStore.SubjectMatches | net-snmp/snmplib/cert_util.c:1961-1980 | Exactly the stored certificates whose subject starts with the name. |
| CertStore.SubjectMatchesDistinct | net-snmp/snmplib/cert_util.c:1961-1980 | The subject query lists no certificate twice. |
| CertStore.Store.constructor | net-snmp/snmplib/cert_util.c:263-330 | A new store is empty. |
| CertStore.Store.FindFp | net-snmp/snmplib/cert_util.c:1781-1800 | Finds nothing for NULL or for a fingerprint too long for the key buffer. Otherwise it finds a stored certificate whose fingerprint is the argument's normal form, and finds nothing only when no certificate has it. |
| CertStore.Store.FindSubsetFn | net-snmp/snmplib/cert_util.c:1925-1959 | NULL exactly when no file name starts with the stem. Otherwise it returns a fresh array of the matches, reduced by extension and then by directory, each only when more than one match is left. |
| CertStore.Store.FnSubsetSound | net-snmp/snmplib/cert_util.c:1945-1959 | Each entry left is a stored certificate whose name starts with the stem. When several names started with it, each is the stem plus a registered extension. |
| CertStore.Store.SinglePrefixMatchKept | net-snmp/snmplib/cert_util.c:1940-1941 | A single prefix match is never reduced, even when its name does not continue the stem with `.`. |
| CertStore.Store.FindPartner | net-snmp/snmplib/cert_util.c:1097-1124 | When the query leaves exactly one unpartnered certificate, the key and it are linked both ways and the certificate gains the identity use. In every other case nothing changes. |
| CertStore.Store.Link | net-snmp/snmplib/cert_util.c:1108-1116 | Links key and certificate both ways and adds the identity use; every other field is unchanged. |
| CertStore.Store.InsertCert | net-snmp/snmplib/cert_util.c:1206 | A certificate is inserted exactly when no stored one has its fingerprint or its path; otherwise the store is unchanged. |
| CertStore.Store.InsertKey | net-snmp/snmplib/cert_util.c:1189 | A key is inserted exactly when no stored key has its path. |
| CertStore.Store.AddCertfile | net-snmp/snmplib/cert_util.c:1158-1231 | Success (0) exactly when the file passes its checks and does not clash; for a key, the mode test is the one written at line 389. The new record is appended, and the matching index line is returned when an index is open. Otherwise -1 and nothing changes. |
| CertStore.Store.AddKey | net-snmp/snmplib/cert_util.c:1180-1195 | The key branch: succeeds exactly when the mode passes the test as written at line 389, the key reads and no key has the path. A fresh loaded key is then appended. |
| CertStore.Store.AddCert | net-snmp/snmplib/cert_util.c:1196-1211 | The certificate branch: succeeds exactly when the file parses and clashes with no stored certificate; then a fresh loaded certificate is appended. |
| CertStore.Store.CertsDistinct | net-snmp/snmplib/cert_util.c:468-477 | A store whose certificates have distinct fingerprints holds no certificate twice. |
| CertStore.Store.Load | net-snmp/snmplib/cert_util.c:1014-1016 | Loads a certificate where it is not loaded; no issuer link changes. |
| CertStore.Store.FindIssuer | net-snmp/snmplib/cert_util.c:994-1027 | The issuer is the first candidate, in container order among the subject matches of the issuer name, that issued the certificate. There is none exactly when no candidate did, or the certificate names no issuer. |
| CertStore.Store.FirstIssuer | net-snmp/snmplib/cert_util.c:1010-1022 | The candidate loop stops at the first candidate that issued the certificate, and finds none only when none did. |
| CertStore.Store.Probe | net-snmp/snmplib/cert_util.c:1013-1020 | A candidate is a hit exactly when, once loaded, it issued the certificate. |
| CertStore.Store.LoadKey | net-snmp/snmplib/cert_util.c:1041-1046 | A key is loaded where it is not loaded yet; a failed read leaves it unloaded. |
| CertStore.Store.SetIssuer | net-snmp/snmplib/cert_util.c:1057 | Links a certificate to an issuer that issued it; no other link changes. |
| CertStore.Store.SinceSnapshot | net-snmp/snmplib/cert_util.c:1049-1075 | Every state is consistent with its own snapshot. |
| CertStore.Store.SnapshotLinks | net-snmp/snmplib/cert_util.c:1049-1075 | A chain's links are recorded in the snapshot. |
| CertStore.Store.ChainKept | net-snmp/snmplib/cert_util.c:1049-1075 | Links set before a walk are still present after it. |
| CertStore.Store.ChainExtend | net-snmp/snmplib/cert_util.c:1049-1075 | A chain extends by the issuer its last certificate links to. |
| CertStore.Store.FindIssuerSince | net-snmp/snmplib/cert_util.c:1056-1058 | The issuer search inside the walk keeps earlier links. |
| CertStore.Store.SetIssuerSince | net-snmp/snmplib/cert_util.c:1057 | Setting a missing issuer link keeps the links recorded earlier. |
| CertStore.Store.LoadSince | net-snmp/snmplib/cert_util.c:1067-1074 | Loading an issuer keeps every link and records the result. |
| CertStore.Store.LinkIssuer | net-snmp/snmplib/cert_util.c:1056-1064 | A certificate ends linked exactly when it already was or an issuer was found; an existing link is never replaced. |
| CertStore.Store.ChainStep | net-snmp/snmplib/cert_util.c:1050-1074 | One step of the walk extends the chain by the linked, loaded issuer, or stops at a missing or unloadable issuer. |
| CertStore.Store.LoadOwn | net-snmp/snmplib/cert_util.c:1034-1047 | 0 exactly when the certificate and (if it has one) its key end up loaded; -1 otherwise. |
| CertStore.Store.WalkChain | net-snmp/snmplib/cert_util.c:1049-1075 | The walk follows real issuer links. It ends successfully only at a self-signed certificate or one naming no issuer. It fails at an issuer that is missing or unloadable, or on a loop. |
| CertStore.Store.LoadX509 | net-snmp/snmplib/cert_util.c:1029-1078 | 0 exactly when the certificate and its key are loaded and the chain reaches a self-signed certificate; -1 otherwise. Earlier links are kept. |
| CertStore.Store.Located | net-snmp/snmplib/cert_util.c:1654-1696 | Which fingerprint each use and location looks up. Unhandled uses, the target-address location and unknown locations find nothing. |
| CertStore.Store.LocatedByFingerprint | net-snmp/snmplib/cert_util.c:1676-1677 | Any spelling of a stored certificate's fingerprint that fits the key buffer finds it, whether given directly or as a remote peer's server fingerprint. A longer spelling finds nothing. |
| CertStore.Store.CertFind | net-snmp/snmplib/cert_util.c:1644-1716 | The found certificate is returned exactly when its allowed uses include the request and it loads with its key and a chain to a self-signed certificate. A failed lookup or use gate loads nothing. |
| SecnameMap.RowsOf | net-snmp/snmplib/cert_util.c:2313-2333 | A list of entries has one row per entry. |
| SecnameMap.SameKeyIsMapCompare | net-snmp/snmplib/cert_util.c:2070-2081 | Two rules clash in the container exactly when the comparator calls them equal. |
| SecnameMap.MapAlloc | net-snmp/snmplib/cert_util.c:2026-2050 | NULL exactly for a fingerprint longer than the MIB allows. Otherwise a fresh, zeroed entry holding the fingerprint, the certificate's hash type and the certificate. |
| SecnameMap.ParseHt | net-snmp/snmplib/cert_util.c:2146-2153 | Each hash name maps to its code, and any other name to NONE. |
| SecnameMap.OptionMapType | net-snmp/snmplib/cert_util.c:2244-2255 | Each option selects a valid map type other than "specified"; an unknown option gives 0. |
| SecnameMap.ReadToken | net-snmp/snmplib/cert_util.c:2190 | Reading takes the next token and leaves the rest. |
| SecnameMap.ParsedRule | net-snmp/snmplib/cert_util.c:2173-2269 | A line is accepted only with a digit-led priority, a normalised fingerprint and a valid map type (with a name exactly for `--sn`). The rule is marked as from the configuration, with hash type SHA-1. |
| SecnameMap.HashOptionIgnored | net-snmp/snmplib/cert_util.c:2207-2216 | A hash option has no lasting effect, because the hash type is overwritten with SHA-1 at line 2257. |
| SecnameMap.ParsedRuleExample | net-snmp/snmplib/cert_util.c:2173-2269 | `100 FF:01 --sn Wes` is the rule mapping `ff01` at priority 100 to security name `Wes`. |
| SecnameMap.ParsedRuleHashExample | net-snmp/snmplib/cert_util.c:2173-2269 | `300 --sha256 EE:22 --rfc822` is an RFC 822 rule for `ee22` with SHA-1 recorded. |
| SecnameMap.ParsedRuleRejects | net-snmp/snmplib/cert_util.c:2191-2255 | These lines are rejected: a bad priority, `--sn` without a name, an unknown option, a missing option, and a hash option without a map option. |
| SecnameMap.ExampleValues | net-snmp/snmplib/cert_util.c:2202-2217 | The example priorities and fingerprints read as 100/300 and `ff01`/`ee22`. |
| SecnameMap.ExamplePair | net-snmp/snmplib/cert_util.c:1615-1642 | Two non-colon characters normalise to their lower-case forms. |
| SecnameMap.ExampleFingerprint | net-snmp/snmplib/cert_util.c:1615-1642 | The halves around a colon normalise independently. |
| SecnameMap.ExamplePriorities | net-snmp/snmplib/cert_util.c:2202 | The example priorities read back through atoi. |
| SecnameMap.Matches | net-snmp/snmplib/cert_util.c:2313-2333 | Every match applies to the candidate's fingerprint, and there are no more matches than rules. |
| SecnameMap.MatchesExactly | net-snmp/snmplib/cert_util.c:2313-2333 | The matches are exactly the applying rules: each match is one of the rules, and each rule whose fingerprint starts with the candidate's is among the matches. |
| SecnameMap.Filled | net-snmp/snmplib/cert_util.c:2335-2352 | Filling copies priority, map type, hash type and (when present) data from the rule; it keeps the candidate's fingerprint, flags and certificate. |
| SecnameMap.ExtrasOf | net-snmp/snmplib/cert_util.c:2412-2432 | Every match after the first becomes a new entry carrying the candidate's certificate. |
| SecnameMap.ResolvedCount | net-snmp/snmplib/cert_util.c:2388-2436 | Resolution leaves one row per rule that applies to some candidate. |
| SecnameMap.KeptSound | net-snmp/snmplib/cert_util.c:2393-2407 | Every kept row is a candidate that some rule applies to, filled from its first rule. |
| SecnameMap.KeptComplete | net-snmp/snmplib/cert_util.c:2393-2407 | Every candidate some rule applies to is kept, filled from its first rule. |
| SecnameMap.ExtrasSound | net-snmp/snmplib/cert_util.c:2412-2432 | Every added row is a later match of some candidate. |
| SecnameMap.ExtrasComplete | net-snmp/snmplib/cert_util.c:2412-2432 | Every later match of every candidate is added. |
| SecnameMap.AllInsertableSnoc | net-snmp/snmplib/cert_util.c:2412-2432 | One more entry can be inserted after the others exactly when the others can be and it can be inserted next to them. |
| SecnameMap.ExtrasStep | net-snmp/snmplib/cert_util.c:2412-2432 | After n insertable extras, the first n + 1 are insertable exactly when the next one is. When it is not, the whole list is not. |
| SecnameMap.InsertableFewer | net-snmp/snmplib/cert_util.c:2427 | An entry that can be inserted next to some rows can be inserted next to fewer of them. |
| SecnameMap.StepFailsAt | net-snmp/snmplib/cert_util.c:2389-2451 | A failing step ends the loop with -1, so no longer run of steps succeeds. |
| SecnameMap.ExtrasPrefix | net-snmp/snmplib/cert_util.c:2412-2432 | The entries added for the first m candidates begin the entries added for all of them. |
| SecnameMap.KeptWithin | net-snmp/snmplib/cert_util.c:2393-2407 | A row kept from the first m candidates is kept from all of them. |
| SecnameMap.StepFitsWhenExtrasFit | net-snmp/snmplib/cert_util.c:2412-2432 | When every added entry fits and clashes with nothing before it in the final table, each candidate's step succeeds. |
| SecnameMap.StepsFitWhenExtrasFit | net-snmp/snmplib/cert_util.c:2389-2436 | Under the same condition, every run of steps from the start succeeds. |
| SecnameMap.ResolvesWhenExtrasFit | net-snmp/snmplib/cert_util.c:2389-2442 | Under the same condition, resolution as a whole succeeds. |
| SecnameMap.FillCertMap | net-snmp/snmplib/cert_util.c:2335-2352 | Fills an entry from a rule in place. |
| SecnameMap.ReadRule | net-snmp/snmplib/cert_util.c:2188-2257 | Builds a fresh entry exactly when the line is a valid rule, and that entry is the rule. |
| SecnameMap.ReadMapOption | net-snmp/snmplib/cert_util.c:2219-2257 | The map type stays 0 exactly when the option is missing, unknown, or `--sn` without a name. Otherwise the type, the security name and hash type SHA-1 are set. |
| SecnameMap.MapTable.constructor | net-snmp/snmplib/cert_util.c:2109-2143 | A new rule table is empty. |
| SecnameMap.MapTable.Insert | net-snmp/snmplib/cert_util.c:2265-2267 | A rule is inserted exactly when none with the same priority and fingerprint is held. |
| SecnameMap.MapTable.Remove | net-snmp/snmplib/cert_util.c:2396 | Removes exactly that entry, keeping the order of the others. |
| SecnameMap.MapTable.FindSubsetFp | net-snmp/snmplib/cert_util.c:2313-2333 | The subset query returns exactly the rules that apply, in container order. |
| SecnameMap.MapTable.InsertExtras | net-snmp/snmplib/cert_util.c:2412-2432 | Appends a fresh entry for every later match. It succeeds exactly when all of them can be allocated (fingerprint within the MIB size) and inserted one after another without a key clash, and otherwise stops at the first that cannot. |
| SecnameMap.MapTable.InsertNext | net-snmp/snmplib/cert_util.c:2414-2430 | One turn of that loop: after the first n extras, the next is appended exactly when it can be inserted. When it cannot, the extras as a whole cannot be inserted. |
| SecnameMap.MapTable.InsertExtra | net-snmp/snmplib/cert_util.c:2414-2430 | Succeeds exactly when the copy's fingerprint fits the MIB size and no held entry has its priority and fingerprint. One fresh entry, filled from the rule and carrying the candidate's certificate, is then appended. |
| SecnameMap.MapTable.DropCandidate | net-snmp/snmplib/cert_util.c:2393-2399 | A candidate no rule applies to is removed, and every other row is unchanged. |
| SecnameMap.MapTable.FillCandidate | net-snmp/snmplib/cert_util.c:2405-2407 | A candidate is filled from its first rule, and every other row is unchanged. |
| SecnameMap.MapTable.KeepCandidate | net-snmp/snmplib/cert_util.c:2400-2432 | A matched candidate is filled and then followed by its extras. It succeeds exactly when those extras can be inserted next to the filled candidate and the other entries. |
| SecnameMap.MapTable.AddExtras | net-snmp/snmplib/cert_util.c:2412-2432 | Only the extras are appended and the candidate is unchanged. It succeeds exactly when the extras can all be inserted into the table as it was. |
| SecnameMap.MapTable.Visit | net-snmp/snmplib/cert_util.c:2389-2436 | One iteration handles one candidate: it is dropped, or kept and filled, and its extras are appended. It fails exactly when those extras cannot all be allocated and inserted. |
| SecnameMap.MapTable.Settle | net-snmp/snmplib/cert_util.c:2393-2432 | One candidate is settled given its matches. It fails exactly when its extras cannot all be allocated and inserted. |
| SecnameMap.MapTable.Advance | net-snmp/snmplib/cert_util.c:2389-2436 | The loop invariant survives one candidate. The step fails exactly when that candidate's extras cannot all be inserted into the table as it stands. |
| SecnameMap.MapTable.Turn | net-snmp/snmplib/cert_util.c:2389-2436 | One turn of the loop carries the account of kept and added entries forward. A failed turn means resolution as a whole cannot succeed. |
| SecnameMap.MapTable.ProgressDone | net-snmp/snmplib/cert_util.c:2437-2442 | When the loop ends the table holds the resolution. |
| SecnameMap.MapTable.ResolveAll | net-snmp/snmplib/cert_util.c:2388-2442 | Returns 0 exactly when every candidate's extras can be allocated and inserted in turn, and then the table holds the resolution of the original candidates against the rules. |
| SecnameMap.MapTable.GetSecnameMaps | net-snmp/snmplib/cert_util.c:2357-2452 | An empty table gives -1 and is unchanged. A non-empty table gives 0 exactly when every candidate's extras can be allocated and inserted in turn; in particular, 0 whenever every added entry fits and clashes with no kept, candidate or earlier added entry. On success the table holds the resolution: the matched candidates filled from their first rule, plus one entry per further match. |
| SecnameMap.MapTable.ParseMap | net-snmp/snmplib/cert_util.c:2173-2269 | Inserts the line's rule exactly when the line is valid and no rule with the same priority and fingerprint is held. Keys stay unique, and a rejected line changes nothing. |
| Varbind.CheckFingerprint | net-snmp/snmplib/cert_util.c:1724-1746 | The status is one of the four listed codes. GENERR exactly for no varbind, WRONGLENGTH exactly for a non-empty even length, and WRONGVALUE exactly for an odd length with an unknown hash type. |
| Varbind.Encode | net-snmp/snmplib/cert_util.c:1739 | The varbind value is the hash type octet followed by the digest. |
| Varbind.DigestLength | net-snmp/include/net-snmp/library/cert_util.h:76-84 | Every known digest is an even number of octets, from 16 to 64. |
| Varbind.AcceptedIsEncoded | net-snmp/snmplib/cert_util.c:1724-1746 | A non-empty value is accepted exactly when it encodes a known hash type and an even-length digest. |
| Varbind.DigestAccepted | net-snmp/snmplib/cert_util.c:1724-1746 | Every fingerprint of a real digest passes the check. |
| Seqs.FilterSnoc | net-snmp/snmplib/cert_util.c:1807-1855 | Filtering one element more appends it exactly when it passes. |
| Seqs.FilterAll | net-snmp/snmplib/cert_util.c:1807-1855 | Filtering changes nothing exactly when every element passes. |
| Seqs.FilterNone | net-snmp/snmplib/cert_util.c:1807-1855 | Filtering leaves nothing exactly when no element passes. |
| Seqs.Pigeonhole | net-snmp/snmplib/cert_util.c:1049-1075 | A walk longer than the store must repeat a certificate. |

## Left out

- OpenSSL is not part of this model. Reading a certificate or key file,
  the issued-by check and the certificate's fields are parameters (`parse`,
  `keyParse`, `issuedBy`) or the abstract `X509`/`PKey` values.
- File I/O is given as values rather than performed: directory scans,
  `stat`, the index files, and reading and writing lines. The index line
  formats and the staleness checks are modelled.
- The netsnmp container library is not part of this model. Containers are
  sequences in insertion order, so subset results come back in container
  order rather than sorted order. Uniqueness is checked by the comparators'
  key fields.
- Allocation failures of `malloc`, `strdup`, `CONTAINER_DUP` and the
  iterator are not modelled. The `_fill_cert_map` strdup failure is not
  modelled either.
- A NULL `_maps` container is not modelled: the model always has its rule
  table.
- Start-up and shutdown are left out, because they only create and free
  containers and register configuration handlers. This covers
  `netsnmp_certs_init`, `netsnmp_certs_shutdown`, `netsnmp_certs_load`'s
  directory driver and `netsnmp_certs_agent_init`.
- Debug dumps, `_cert_print`, `_mode_str` printing, `_save_maps` and
  persistence are left out as output only.
- CertRecords.Cert.OcertGet: does not model a private key embedded in a PEM
  certificate file (lines 866-901), because that depends on OpenSSL's
  reading of the file.
- CertRecords.Cert.OcertGet: records the type resolved from the file name
  but not the DER-to-PEM retyping that OpenSSL's read decides.
- CertStore.Store.FindPartner: models only the key branch of
  `_find_partner`. The certificate branch (lines 1125-1147) is unreachable
  from its only caller (line 218), which passes a key. As written, it would
  dereference the NULL key at line 1091.
- CertStore.Store.WalkChain: stops after as many steps as the store holds
  certificates. By then the chain must repeat a certificate
  (`Seqs.Pigeonhole`), where the C loop would not terminate.
- SecnameMap.ReadToken: a configuration line is given as its list of
  tokens. Quoting and the buffer limit of `read_config_read_octet_string`
  are not modelled.
- SecnameMap.MapTable.GetSecnameMaps: states the resulting rows, not which
  entry objects survive.
- CertStore.Store.FindFp: looks up the normal form of the whole
  fingerprint through the corrected key buffer (`Fingerprint.LookupKey`,
  the key `Fingerprint.SearchKey` computes in place), not the truncated
  copy of lines 1785-1790; see Findings.
- Index reading in `_cert_read_index` (lines 1321-1396) is not modelled
  beyond the header and the staleness checks: it re-creates entries
  through the same constructors. `_certindex_add`'s choice of a free index
  number is not modelled either.
- Integer widths: priorities and `atoi` results are unbounded integers.
  `u_char` fields are reduced modulo 256 (`CertRecords.UChar`).

## Findings

| source | as written | input that shows it | evidently intended | confidence | as-written member | corrected member |
|---|---|---|---|---|---|---|
| net-snmp/snmplib/cert_util.c:389 | The key file mode test checks `S_IROTH` twice. | A key file with mode 0602 (world-writable, not world-readable) is accepted. | Refuse a key file that is world-readable or world-writable (`S_IROTH \| S_IWOTH`). | not executed | CertRecords.AsWrittenAcceptsWorldWritable | CertRecords.KeyModeRefusedMeaning |
| net-snmp/snmplib/cert_util.c:1785-1791 | The search key buffer holds `EVP_MAX_MD_SIZE` (64) characters and is filled by `strncpy` with that bound. | The 64-hex-digit text of a SHA-256 fingerprint fills the buffer with no terminator. | A buffer sized for the hex text of the largest digest, so that the key is the whole normalised fingerprint. | not executed | Fingerprint.KeyBufferAsWritten | Fingerprint.SearchKey |
