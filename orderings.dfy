/** The comparison functions that order the certificate indexes (by
    fingerprint, common name, subject and file name) and the two
    secname-map indexes (by priority and by fingerprint). Only the sign of a
    result matters. The `n`-comparisons used for subset queries are prefix
    tests: a stored entry matches when its key starts with the probe. */
module Orderings {
  import opened Optional
  import opened CStr
  import opened CertRecords

  /** Compare one field and, on a tie, the next. */
  function Lex(first: int, second: int): int {
    if first != 0 then first else second
  }

  /** The -1/0/1 comparison of two integers (the priority comparison). */
  function IntCompare(a: int, b: int): (r: int)
    ensures r == 0 <==> a == b
    ensures r < 0 <==> a < b
  {
    if a < b then -1 else if a > b then 1 else 0
  }

  /** _cert_compare, the primary certificate index: by fingerprint alone. */
  function CertCompare(lhs: Cert, rhs: Cert): (r: int)
    reads lhs, rhs
    requires lhs.fingerprint.Some? && rhs.fingerprint.Some?
    ensures -1 <= r <= 1
    ensures r == 0 <==> lhs.fingerprint == rhs.fingerprint
  {
    StrcmpZeroIff(lhs.fingerprint.value, rhs.fingerprint.value);
    Strcmp(lhs.fingerprint.value, rhs.fingerprint.value)
  }

  /** _cert_path_compare: by directory, then by file name. */
  function PathCompare(lhs: Path, rhs: Path): (r: int)
    ensures -1 <= r <= 1
    ensures r == 0 <==> lhs == rhs
  {
    StrcmpZeroIff(lhs.dir, rhs.dir);
    StrcmpZeroIff(lhs.filename, rhs.filename);
    Lex(Strcmp(lhs.dir, rhs.dir), Strcmp(lhs.filename, rhs.filename))
  }

  /** A missing name sorts as the empty string. */
  function NameOrEmpty(name: Option<string>): string {
    name.GetOr("")
  }

  /** _cert_cn_compare: by common name (missing = ""), then by path. */
  function CnCompare(lhs: Cert, rhs: Cert): (r: int)
    reads lhs, rhs
    ensures -1 <= r <= 1
    ensures r == 0 <==> NameOrEmpty(lhs.commonName) == NameOrEmpty(rhs.commonName) && lhs.path == rhs.path
  {
    var l, r := NameOrEmpty(lhs.commonName), NameOrEmpty(rhs.commonName);
    StrcmpZeroIff(l, r);
    Lex(Strcmp(l, r), PathCompare(lhs.path, rhs.path))
  }

  /** _cert_sn_compare: by subject (missing = ""), then by path. */
  function SnCompare(lhs: Cert, rhs: Cert): (r: int)
    reads lhs, rhs
    ensures -1 <= r <= 1
    ensures r == 0 <==> NameOrEmpty(lhs.subject) == NameOrEmpty(rhs.subject) && lhs.path == rhs.path
  {
    var l, r := NameOrEmpty(lhs.subject), NameOrEmpty(rhs.subject);
    StrcmpZeroIff(l, r);
    Lex(Strcmp(l, r), PathCompare(lhs.path, rhs.path))
  }

  /** _cert_fn_compare: by file name, then by directory (the file-name
      index of certificates and the primary index of keys). */
  function FnCompare(lhs: Path, rhs: Path): (r: int)
    ensures -1 <= r <= 1
    ensures r == 0 <==> lhs == rhs
    ensures lhs.filename != rhs.filename ==> r == Strcmp(lhs.filename, rhs.filename)
  {
    StrcmpZeroIff(lhs.filename, rhs.filename);
    StrcmpZeroIff(lhs.dir, rhs.dir);
    Lex(Strcmp(lhs.filename, rhs.filename), Strcmp(lhs.dir, rhs.dir))
  }

  /** _cert_fn_ncompare: a stored file name matches a probe it starts with. */
  function FnNcompare(stored: Path, probe: Path): (r: int)
    ensures r == 0 <==> IsPrefix(probe.filename, stored.filename)
  {
    StrncmpPrefix(stored.filename, probe.filename);
    Strncmp(stored.filename, probe.filename, |probe.filename|)
  }

  /** _cert_sn_ncompare: a stored subject matches a probe it starts with. */
  function SnNcompare(stored: Cert, probe: Cert): (r: int)
    reads stored, probe
    requires stored.subject.Some? && probe.subject.Some?
    ensures r == 0 <==> IsPrefix(probe.subject.value, stored.subject.value)
  {
    StrncmpPrefix(stored.subject.value, probe.subject.value);
    Strncmp(stored.subject.value, probe.subject.value, |probe.subject.value|)
  }

  /** _map_compare, the primary map index: by priority, then fingerprint. */
  function MapCompare(lhs: CertMap, rhs: CertMap): (r: int)
    reads lhs, rhs
    requires lhs.fingerprint.Some? && rhs.fingerprint.Some?
    ensures -1 <= r <= 1
    ensures r == 0 <==> lhs.priority == rhs.priority && lhs.fingerprint == rhs.fingerprint
    ensures lhs.priority != rhs.priority ==> (r < 0 <==> lhs.priority < rhs.priority)
  {
    StrcmpZeroIff(lhs.fingerprint.value, rhs.fingerprint.value);
    Lex(IntCompare(lhs.priority, rhs.priority),
        Strcmp(lhs.fingerprint.value, rhs.fingerprint.value))
  }

  /** _map_fp_compare, the fingerprint index: by fingerprint, then priority. */
  function MapFpCompare(lhs: CertMap, rhs: CertMap): (r: int)
    reads lhs, rhs
    requires lhs.fingerprint.Some? && rhs.fingerprint.Some?
    ensures -1 <= r <= 1
    ensures r == 0 <==> lhs.priority == rhs.priority && lhs.fingerprint == rhs.fingerprint
  {
    StrcmpZeroIff(lhs.fingerprint.value, rhs.fingerprint.value);
    Lex(Strcmp(lhs.fingerprint.value, rhs.fingerprint.value),
        IntCompare(lhs.priority, rhs.priority))
  }

  /** _map_fp_ncompare: a stored fingerprint matches a probe it starts with. */
  function MapFpNcompare(stored: CertMap, probe: CertMap): (r: int)
    reads stored, probe
    requires stored.fingerprint.Some? && probe.fingerprint.Some?
    ensures r == 0 <==> IsPrefix(probe.fingerprint.value, stored.fingerprint.value)
  {
    StrncmpPrefix(stored.fingerprint.value, probe.fingerprint.value);
    Strncmp(stored.fingerprint.value, probe.fingerprint.value, |probe.fingerprint.value|)
  }

  /** Swapping the operands of the path comparison flips the sign. */
  lemma PathCompareAntisymmetric(a: Path, b: Path)
    ensures PathCompare(a, b) == -PathCompare(b, a)
  {
    StrcmpAntisymmetric(a.dir, b.dir);
    StrcmpAntisymmetric(a.filename, b.filename);
  }

  /** The path comparison orders paths transitively. */
  lemma PathCompareTransitive(a: Path, b: Path, c: Path)
    requires PathCompare(a, b) < 0 && PathCompare(b, c) < 0
    ensures PathCompare(a, c) < 0
  {
    StrcmpZeroIff(a.dir, b.dir);
    StrcmpZeroIff(b.dir, c.dir);
    if a.dir == b.dir && b.dir == c.dir {
      StrcmpTransitive(a.filename, b.filename, c.filename);
    } else if a.dir == b.dir {
      assert Strcmp(a.dir, c.dir) == Strcmp(b.dir, c.dir);
    } else if b.dir == c.dir {
      assert Strcmp(a.dir, c.dir) == Strcmp(a.dir, b.dir);
    } else {
      StrcmpTransitive(a.dir, b.dir, c.dir);
    }
  }

  /** Swapping the operands of the file-name comparison flips the sign. */
  lemma FnCompareAntisymmetric(a: Path, b: Path)
    ensures FnCompare(a, b) == -FnCompare(b, a)
  {
    StrcmpAntisymmetric(a.dir, b.dir);
    StrcmpAntisymmetric(a.filename, b.filename);
  }

  /** The file-name comparison orders paths transitively. */
  lemma FnCompareTransitive(a: Path, b: Path, c: Path)
    requires FnCompare(a, b) < 0 && FnCompare(b, c) < 0
    ensures FnCompare(a, c) < 0
  {
    StrcmpZeroIff(a.filename, b.filename);
    StrcmpZeroIff(b.filename, c.filename);
    if a.filename == b.filename && b.filename == c.filename {
      StrcmpTransitive(a.dir, b.dir, c.dir);
    } else if a.filename == b.filename {
      assert Strcmp(a.filename, c.filename) == Strcmp(b.filename, c.filename);
    } else if b.filename == c.filename {
      assert Strcmp(a.filename, c.filename) == Strcmp(a.filename, b.filename);
    } else {
      StrcmpTransitive(a.filename, b.filename, c.filename);
    }
  }

  /** Swapping the operands of the subject comparison flips the sign. */
  lemma SnCompareAntisymmetric(a: Cert, b: Cert)
    ensures SnCompare(a, b) == -SnCompare(b, a)
  {
    StrcmpAntisymmetric(NameOrEmpty(a.subject), NameOrEmpty(b.subject));
    PathCompareAntisymmetric(a.path, b.path);
  }

  /** The subject comparison orders certificates transitively. */
  lemma SnCompareTransitive(a: Cert, b: Cert, c: Cert)
    requires SnCompare(a, b) < 0 && SnCompare(b, c) < 0
    ensures SnCompare(a, c) < 0
  {
    var sa, sb, sc := NameOrEmpty(a.subject), NameOrEmpty(b.subject), NameOrEmpty(c.subject);
    StrcmpZeroIff(sa, sb);
    StrcmpZeroIff(sb, sc);
    if sa == sb && sb == sc {
      PathCompareTransitive(a.path, b.path, c.path);
    } else if sa == sb {
      assert Strcmp(sa, sc) == Strcmp(sb, sc);
    } else if sb == sc {
      assert Strcmp(sa, sc) == Strcmp(sa, sb);
    } else {
      StrcmpTransitive(sa, sb, sc);
    }
  }

  /** Swapping the operands of the common-name comparison flips the sign. */
  lemma CnCompareAntisymmetric(a: Cert, b: Cert)
    ensures CnCompare(a, b) == -CnCompare(b, a)
  {
    StrcmpAntisymmetric(NameOrEmpty(a.commonName), NameOrEmpty(b.commonName));
    PathCompareAntisymmetric(a.path, b.path);
  }

  /** The common-name comparison orders certificates transitively. */
  lemma CnCompareTransitive(a: Cert, b: Cert, c: Cert)
    requires CnCompare(a, b) < 0 && CnCompare(b, c) < 0
    ensures CnCompare(a, c) < 0
  {
    var na, nb, nc := NameOrEmpty(a.commonName), NameOrEmpty(b.commonName), NameOrEmpty(c.commonName);
    StrcmpZeroIff(na, nb);
    StrcmpZeroIff(nb, nc);
    if na == nb && nb == nc {
      PathCompareTransitive(a.path, b.path, c.path);
    } else if na == nb {
      assert Strcmp(na, nc) == Strcmp(nb, nc);
    } else if nb == nc {
      assert Strcmp(na, nc) == Strcmp(na, nb);
    } else {
      StrcmpTransitive(na, nb, nc);
    }
  }

  /** Swapping the operands of the priority-first map comparison flips the
      sign. */
  lemma MapCompareAntisymmetric(a: CertMap, b: CertMap)
    requires a.fingerprint.Some? && b.fingerprint.Some?
    ensures MapCompare(a, b) == -MapCompare(b, a)
  {
    StrcmpAntisymmetric(a.fingerprint.value, b.fingerprint.value);
  }

  /** The priority-first map comparison is transitive. */
  lemma MapCompareTransitive(a: CertMap, b: CertMap, c: CertMap)
    requires a.fingerprint.Some? && b.fingerprint.Some? && c.fingerprint.Some?
    requires MapCompare(a, b) < 0 && MapCompare(b, c) < 0
    ensures MapCompare(a, c) < 0
  {
    if a.priority == b.priority == c.priority {
      StrcmpTransitive(a.fingerprint.value, b.fingerprint.value, c.fingerprint.value);
    }
  }

  /** Swapping the operands of the fingerprint-first map comparison flips
      the sign. */
  lemma MapFpCompareAntisymmetric(a: CertMap, b: CertMap)
    requires a.fingerprint.Some? && b.fingerprint.Some?
    ensures MapFpCompare(a, b) == -MapFpCompare(b, a)
  {
    StrcmpAntisymmetric(a.fingerprint.value, b.fingerprint.value);
  }

  /** The fingerprint-first map comparison is transitive. */
  lemma MapFpCompareTransitive(a: CertMap, b: CertMap, c: CertMap)
    requires a.fingerprint.Some? && b.fingerprint.Some? && c.fingerprint.Some?
    requires MapFpCompare(a, b) < 0 && MapFpCompare(b, c) < 0
    ensures MapFpCompare(a, c) < 0
  {
    var fa, fb, fc := a.fingerprint.value, b.fingerprint.value, c.fingerprint.value;
    StrcmpZeroIff(fa, fb);
    StrcmpZeroIff(fb, fc);
    if fa == fb && fb == fc {
    } else if fa == fb {
      assert Strcmp(fa, fc) == Strcmp(fb, fc);
    } else if fb == fc {
      assert Strcmp(fa, fc) == Strcmp(fa, fb);
    } else {
      StrcmpTransitive(fa, fb, fc);
    }
  }
}
