/** The certificate to security-name map: the rules read from certSecName
    configuration lines, and the resolution of the fingerprints of a
    presented certificate chain into the rules that apply to them. */
module SecnameMap {
  import opened Optional
  import opened CStr
  import opened CertConst
  import opened Fingerprint
  import opened CertRecords
  import opened Orderings
  import opened Seqs

  /** The longest fingerprint a map entry may hold: the MIB's administrative
      string bound, doubled because the fingerprint is hex text. */
  const MAP_FP_MAX: int := SNMP_ADMIN_LENGTH * 2

  /** What the model keeps of a map entry at one moment. */
  datatype Row = Row(priority: int, fingerprint: Option<string>, mapType: int, data: Option<string>,
                     hashType: int, flags: bv8, ocert: Option<X509>)

  /** The fields of a map entry as they are now. */
  function RowOf(m: CertMap): Row
    reads m
  {
    Row(m.priority, m.fingerprint, m.mapType, m.data, m.hashType, m.flags, m.ocert)
  }

  /** The fields of each entry of a container, in container order. */
  function RowsOf(ms: seq<CertMap>): (rows: seq<Row>)
    reads ms
    ensures |rows| == |ms|
  {
    if |ms| == 0 then [] else RowsOf(ms[..|ms| - 1]) + [RowOf(ms[|ms| - 1])]
  }

  /** Each row is its own entry's. */
  lemma {:induction false} RowsOfIndex(ms: seq<CertMap>)
    ensures forall k :: 0 <= k < |ms| ==> RowsOf(ms)[k] == RowOf(ms[k])
  {
    if |ms| > 0 {
      RowsOfIndex(ms[..|ms| - 1]);
    }
  }

  lemma {:induction false} RowsOfAppend(a: seq<CertMap>, b: seq<CertMap>)
    ensures RowsOf(a + b) == RowsOf(a) + RowsOf(b)
  {
    if |b| == 0 {
      assert a + b == a;
    } else {
      assert (a + b)[..|a + b| - 1] == a + b[..|b| - 1];
      RowsOfAppend(a, b[..|b| - 1]);
    }
  }

  lemma RowsOfSnoc(ms: seq<CertMap>, m: CertMap)
    ensures RowsOf(ms + [m]) == RowsOf(ms) + [RowOf(m)]
  {
    assert (ms + [m])[..|ms|] == ms;
  }

  lemma RowsOfPrefixStep(ms: seq<CertMap>, i: nat)
    requires i < |ms|
    ensures RowsOf(ms[..i + 1]) == RowsOf(ms[..i]) + [RowOf(ms[i])]
  {
    assert ms[..i + 1][..i] == ms[..i];
  }

  /** Every entry of `xs` is one of `ys`. */
  ghost predicate Among(xs: seq<CertMap>, ys: seq<CertMap>) {
    forall k :: 0 <= k < |xs| ==> xs[k] in ys
  }

  lemma AmongSnoc(xs: seq<CertMap>, ys: seq<CertMap>, i: nat)
    requires Among(xs, ys) && i < |ys|
    ensures Among(xs + [ys[i]], ys)
  {
  }

  lemma RowsOfCons(ms: seq<CertMap>)
    requires |ms| > 0
    ensures RowsOf(ms) == [RowOf(ms[0])] + RowsOf(ms[1..])
  {
    var x, tail := ms[0], ms[1..];
    assert [x][..0] == [];
    assert RowsOf([x]) == [RowOf(x)];
    assert ms == [x] + tail;
    RowsOfAppend([x], tail);
  }

  /** The key of both map indexes: the same priority and fingerprint. */
  predicate SameKey(a: Row, b: Row) {
    a.priority == b.priority && a.fingerprint == b.fingerprint
  }

  /** Two entries have the same key exactly when _map_compare, the primary
      index's comparison, calls them equal. */
  lemma SameKeyIsMapCompare(a: CertMap, b: CertMap)
    requires a.fingerprint.Some? && b.fingerprint.Some?
    ensures SameKey(RowOf(a), RowOf(b)) <==> MapCompare(a, b) == 0
  {
  }

  /** The hash type of a certificate (netsnmp_openssl_cert_get_hash_type);
      none for a missing certificate. */
  function HashTypeOf(ocert: Option<X509>): int {
    if ocert.Some? then ocert.value.hashType else HASH_NONE
  }

  /** netsnmp_cert_map_alloc: a zero-filled entry holding `fingerprint`,
      with the hash type of `ocert`, and `ocert`; null when the fingerprint
      is longer than the MIB allows. */
  method MapAlloc(fingerprint: Option<string>, ocert: Option<X509>) returns (m: CertMap?)
    ensures m == null <==> fingerprint.Some? && |fingerprint.value| > MAP_FP_MAX
    ensures m != null ==> fresh(m)
    ensures m != null ==>
      RowOf(m) == Row(0, fingerprint, 0, None,
                      if fingerprint.Some? then HashTypeOf(ocert) else HASH_NONE, 0, ocert)
  {
    m := new CertMap();
    if fingerprint.Some? {
      if |fingerprint.value| > MAP_FP_MAX {
        return null;
      }
      m.fingerprint := fingerprint;
      m.hashType := HashTypeOf(ocert);
    }
    if ocert.Some? {
      m.ocert := ocert;
    }
  }

  /** The name of a hash algorithm in the `cert_hash_alg` list. */
  function HashName(h: int): (name: string)
    requires HASH_MD5 <= h <= HASH_MAX
  {
    if h == HASH_MD5 then "md5"
    else if h == HASH_SHA1 then "sha1"
    else if h == HASH_SHA224 then "sha224"
    else if h == HASH_SHA256 then "sha256"
    else if h == HASH_SHA384 then "sha384"
    else "sha512"
  }

  /** _parse_ht_str: the hash code a name stands for, NONE for any name
      the list does not hold. */
  function ParseHt(name: string): (h: int)
    ensures IsHashCode(h)
    ensures forall k :: HASH_MD5 <= k <= HASH_MAX ==> (h == k <==> name == HashName(k))
  {
    if name == "sha1" then HASH_SHA1
    else if name == "md5" then HASH_MD5
    else if name == "sha224" then HASH_SHA224
    else if name == "sha256" then HASH_SHA256
    else if name == "sha384" then HASH_SHA384
    else if name == "sha512" then HASH_SHA512
    else HASH_NONE
  }

  /** The map type a `--<option>` of a certSecName line selects; 0 for an
      unknown option. `--sn` is handled apart, as it takes an argument. */
  function OptionMapType(option: string): (t: int)
    ensures t == 0 || IsMapType(t)
    ensures t != MAP_CERT_SPECIFIED
  {
    if option == "cn" then MAP_COMMON_NAME
    else if option == "ip" then MAP_SAN_IP_ADDRESS
    else if option == "rfc822" then MAP_SAN_RFC822_NAME
    else if option == "dns" then MAP_SAN_DNS_NAME
    else if option == "any" then MAP_SAN_ANY
    else 0
  }

  /** read_config_read_octet_string on the rest of a configuration line,
      given as its tokens: the next token and the rest of the line; the
      rest is empty where the C function returns NULL. Reading an empty
      line gives the empty token. */
  method ReadToken(line: seq<string>) returns (token: string, rest: seq<string>)
    ensures |line| > 0 ==> token == line[0] && line == [token] + rest
    ensures |line| == 0 ==> token == "" && rest == []
  {
    if |line| == 0 {
      return "", [];
    }
    token, rest := line[0], line[1..];
  }

  /** A token of the form `--<option>`. */
  predicate IsOption(token: string) {
    IsPrefix("--", token)
  }

  /** The rule a certSecName line stands for: a priority starting with a
      digit, an optional hash option, the fingerprint, and a map option
      (with the security name after `--sn`); nothing when the line is
      malformed. The rule's fingerprint is normalised, it is marked as
      coming from the configuration, and its hash type is SHA-1 whatever
      the hash option said. */
  function ParsedRule(tokens: seq<string>): (r: Option<Row>)
    ensures r.Some? ==>
      && |tokens| >= 3 && |tokens[0]| > 0 && IsDigit(tokens[0][0])
      && r.value.priority == Atoi(tokens[0])
      && r.value.fingerprint.Some? && IsNormal(r.value.fingerprint.value)
      && IsMapType(r.value.mapType) && (r.value.mapType == MAP_CERT_SPECIFIED <==> r.value.data.Some?)
      && r.value.hashType == HASH_SHA1 && r.value.flags == CERT_MAP_FROM_CONFIG && r.value.ocert.None?
  {
    if |tokens| == 0 || |tokens[0]| == 0 || !IsDigit(tokens[0][0]) then None
    else
      var f := if |tokens| > 1 && IsOption(tokens[1]) then 2 else 1;
      if |tokens| <= f + 1 || !IsOption(tokens[f + 1]) then None
      else
        var option := tokens[f + 1][2..];
        NormalizeIsNormal(tokens[f]);
        var rule := Row(Atoi(tokens[0]), Some(Normalize(tokens[f])), 0, None, HASH_SHA1,
                        CERT_MAP_FROM_CONFIG, None);
        if option == "sn" then
          if |tokens| <= f + 2 then None
          else Some(rule.(mapType := MAP_CERT_SPECIFIED, data := Some(tokens[f + 2])))
        else if OptionMapType(option) == 0 then None
        else Some(rule.(mapType := OptionMapType(option)))
  }

  /** A hash option has no lasting effect: the line without it stands for
      the same rule. */
  lemma HashOptionIgnored(priority: string, hash: string, fingerprint: string, rest: seq<string>)
    requires IsOption(hash) && !IsOption(fingerprint)
    ensures ParsedRule([priority, hash, fingerprint] + rest) == ParsedRule([priority, fingerprint] + rest)
  {
    var with := [priority, hash, fingerprint] + rest;
    var without := [priority, fingerprint] + rest;
    assert with[0] == without[0] && with[2] == without[1] && with[1] == hash;
    assert forall k :: 3 <= k < |with| ==> with[k] == without[k - 1];
  }

  /** The rule an example line of the configuration documentation stands
      for: a fingerprint with colons, then `--sn` and a name. */
  lemma ParsedRuleExample()
    ensures ParsedRule(["100", "FF:01", "--sn", "Wes"])
      == Some(Row(100, Some("ff01"), MAP_CERT_SPECIFIED, Some("Wes"), HASH_SHA1, CERT_MAP_FROM_CONFIG, None))
  {
    ExampleValues();
    var a := ["100", "FF:01", "--sn", "Wes"];
    assert IsDigit(a[0][0]) && !IsOption(a[1]) && IsOption(a[2]) && a[2][2..] == "sn";
    assert |a| > 3 && a[3] == "Wes";
  }

  /** Another example line: a hash option before the fingerprint, which
      the parser reads past, and `--rfc822`. */
  lemma ParsedRuleHashExample()
    ensures ParsedRule(["300", "--sha256", "EE:22", "--rfc822"])
      == Some(Row(300, Some("ee22"), MAP_SAN_RFC822_NAME, None, HASH_SHA1, CERT_MAP_FROM_CONFIG, None))
  {
    ExampleValues();
    var b := ["300", "--sha256", "EE:22", "--rfc822"];
    assert b[3][..2] == "--" && b[1][..2] == "--";
    assert IsDigit(b[0][0]) && IsOption(b[1]) && IsOption(b[3]) && b[3][2..] == "rfc822";
    assert "rfc822" != "sn" && OptionMapType("rfc822") == MAP_SAN_RFC822_NAME;
  }

  /** Lines the parser discards: a priority that does not start with a
      digit, `--sn` without a name, an unknown option, no map option. */
  lemma ParsedRuleRejects()
    ensures ParsedRule(["x100", "FF:01", "--cn"]).None?
    ensures ParsedRule(["100", "FF:01", "--sn"]).None?
    ensures ParsedRule(["100", "FF:01", "--uid"]).None?
    ensures ParsedRule(["100", "FF:01"]).None?
    ensures ParsedRule(["100", "--md5", "FF:01"]).None?
  {
    assert !IsDigit('x');
    assert "--sn"[2..] == "sn" && "--uid"[2..] == "uid";
    assert "--sn"[..2] == "--" && "--uid"[..2] == "--" && "--md5"[..2] == "--";
    assert "FF:01"[..2] != "--" by {
      assert "FF:01"[0] == 'F';
    }
  }

  /** The priorities and fingerprints of the examples. */
  lemma ExampleValues()
    ensures Atoi("100") == 100 && Atoi("300") == 300
    ensures Normalize("FF:01") == "ff01" && Normalize("EE:22") == "ee22"
  {
    ExamplePriorities();
    ExampleFingerprint("FF", "01");
    ExampleFingerprint("EE", "22");
    assert "FF" + ":" + "01" == "FF:01" && "EE" + ":" + "22" == "EE:22";
    ExamplePair('F', 'F');
    ExamplePair('0', '1');
    ExamplePair('E', 'E');
    ExamplePair('2', '2');
  }

  /** Two characters other than `:` are lower-cased and kept. */
  lemma ExamplePair(a: char, b: char)
    requires a != ':' && b != ':'
    ensures Normalize([a, b]) == [ToLower(a), ToLower(b)]
  {
    assert [a] + [b] == [a, b];
    NormalizeAppend([a], [b]);
    assert [a][1..] == [] && [b][1..] == [];
  }

  /** Two colon-separated halves normalise on their own. */
  lemma ExampleFingerprint(a: string, b: string)
    ensures Normalize(a + ":" + b) == Normalize(a) + Normalize(b)
  {
    assert a + ":" + b == a + (":" + b);
    NormalizeAppend(a, ":" + b);
    NormalizeAppend(":", b);
  }

  /** The priorities of the examples read back as numbers. */
  lemma ExamplePriorities()
    ensures Atoi("100") == 100 && Atoi("300") == 300
  {
    assert NatToString(10) == "10";
    assert NatToString(30) == "30";
    assert IntToString(100) == "100" && IntToString(300) == "300";
    AtoiOfIntToString(100, "");
    AtoiOfIntToString(300, "");
    assert "100" + "" == "100" && "300" + "" == "300";
  }

  /** A rule applies to a fingerprint it starts with: the fingerprint
      index's n-comparison (_map_fp_ncompare). */
  predicate Applies(rule: Row, fp: Option<string>) {
    fp.Some? && rule.fingerprint.Some? && IsPrefix(fp.value, rule.fingerprint.value)
  }

  function AppliesTo(fp: Option<string>): Row -> bool {
    (rule: Row) => Applies(rule, fp)
  }

  /** The rules that apply to `fp`, in container order. */
  function Matches(rules: seq<Row>, fp: Option<string>): (ms: seq<Row>)
    ensures |ms| <= |rules|
    ensures forall k :: 0 <= k < |ms| ==> Applies(ms[k], fp)
  {
    FilterMembers(rules, AppliesTo(fp));
    Filter(rules, AppliesTo(fp))
  }

  /** The matches are exactly the rules that apply: each match is one of
      the rules, and each rule that applies is among the matches. */
  lemma MatchesExactly(rules: seq<Row>, fp: Option<string>)
    ensures forall k :: 0 <= k < |Matches(rules, fp)| ==> Matches(rules, fp)[k] in rules
    ensures forall k :: 0 <= k < |rules| && Applies(rules[k], fp) ==> rules[k] in Matches(rules, fp)
  {
    FilterMembers(rules, AppliesTo(fp));
  }

  /** At least one rule applies to the candidate. */
  predicate Matched(rules: seq<Row>, cand: Row) {
    |Matches(rules, cand.fingerprint)| > 0
  }

  /** _fill_cert_map: the candidate takes the rule's priority, map type,
      hash type and (when the rule has one) data, and keeps its own
      fingerprint, flags and certificate. */
  function Filled(cand: Row, rule: Row): (r: Row)
    ensures r.priority == rule.priority && r.mapType == rule.mapType && r.hashType == rule.hashType
    ensures r.data == (if rule.data.Some? then rule.data else cand.data)
    ensures r.fingerprint == cand.fingerprint && r.flags == cand.flags && r.ocert == cand.ocert
  {
    cand.(priority := rule.priority, mapType := rule.mapType, hashType := rule.hashType,
          data := if rule.data.Some? then rule.data else cand.data)
  }

  /** The entry added for a further rule that applies to a candidate: a
      copy of the rule, without flags, carrying the candidate's
      certificate. */
  function Added(ocert: Option<X509>, rule: Row): Row {
    Row(rule.priority, rule.fingerprint, rule.mapType, rule.data, rule.hashType, 0, ocert)
  }

  /** The entries added for the rules after the first that apply. */
  function ExtrasOf(ocert: Option<X509>, ms: seq<Row>): (xs: seq<Row>)
    ensures |xs| == if |ms| == 0 then 0 else |ms| - 1
    ensures forall j :: 0 <= j < |xs| ==> xs[j] == Added(ocert, ms[j + 1])
  {
    if |ms| <= 1 then [] else ExtrasOf(ocert, ms[..|ms| - 1]) + [Added(ocert, ms[|ms| - 1])]
  }

  /** The candidate filled from the first rule that applies to it, or
      nothing when no rule does. */
  function KeptOf(cand: Row, rules: seq<Row>): seq<Row> {
    if Matched(rules, cand) then [Filled(cand, Matches(rules, cand.fingerprint)[0])] else []
  }

  /** The candidates that some rule applies to, each filled from the first
      such rule, in candidate order. */
  function Kept(cands: seq<Row>, rules: seq<Row>): seq<Row> {
    if |cands| == 0 then []
    else Kept(cands[..|cands| - 1], rules) + KeptOf(cands[|cands| - 1], rules)
  }

  /** The entries added for all candidates, in candidate order. */
  function Extras(cands: seq<Row>, rules: seq<Row>): seq<Row> {
    if |cands| == 0 then []
    else
      var c := cands[|cands| - 1];
      Extras(cands[..|cands| - 1], rules) + ExtrasOf(c.ocert, Matches(rules, c.fingerprint))
  }

  /** Resolving one more candidate adds its own rows to each part. */
  lemma ResolvedSnoc(cands: seq<Row>, i: nat, rules: seq<Row>)
    requires i < |cands|
    ensures Kept(cands[..i + 1], rules) == Kept(cands[..i], rules) + KeptOf(cands[i], rules)
    ensures Extras(cands[..i + 1], rules)
      == Extras(cands[..i], rules) + ExtrasOf(cands[i].ocert, Matches(rules, cands[i].fingerprint))
  {
    assert cands[..i + 1][..i] == cands[..i];
  }


  /** What the candidate container holds after a successful resolution. */
  function Resolved(cands: seq<Row>, rules: seq<Row>): seq<Row> {
    Kept(cands, rules) + Extras(cands, rules)
  }

  /** How many (candidate, rule) pairs match: each candidate counted once
      per rule that applies to it. */
  function MatchCount(cands: seq<Row>, rules: seq<Row>): nat {
    if |cands| == 0 then 0
    else MatchCount(cands[..|cands| - 1], rules) + |Matches(rules, cands[|cands| - 1].fingerprint)|
  }

  /** Resolution leaves exactly one entry per matching (candidate, rule)
      pair: the filled candidate for its first rule, a new entry for each
      further one. */
  lemma {:induction false} ResolvedCount(cands: seq<Row>, rules: seq<Row>)
    ensures |Resolved(cands, rules)| == MatchCount(cands, rules)
    decreases |cands|
  {
    if |cands| > 0 {
      ResolvedCount(cands[..|cands| - 1], rules);
    }
  }

  /** A kept entry is a candidate some rule applies to, filled from the
      first such rule. */
  lemma {:induction false} KeptSound(cands: seq<Row>, rules: seq<Row>, x: Row)
    requires x in Kept(cands, rules)
    ensures exists k :: (0 <= k < |cands| && Matched(rules, cands[k])
      && x == Filled(cands[k], Matches(rules, cands[k].fingerprint)[0]))
    decreases |cands|
  {
    var n := |cands|;
    var p := cands[..n - 1];
    if x in Kept(p, rules) {
      KeptSound(p, rules, x);
      var k :| 0 <= k < |p| && Matched(rules, p[k]) && x == Filled(p[k], Matches(rules, p[k].fingerprint)[0]);
      assert cands[k] == p[k];
    } else {
      assert Matched(rules, cands[n - 1]);
    }
  }

  /** Every candidate some rule applies to is kept, filled from the first
      such rule. */
  lemma {:induction false} KeptComplete(cands: seq<Row>, rules: seq<Row>, k: nat)
    requires k < |cands| && Matched(rules, cands[k])
    ensures Filled(cands[k], Matches(rules, cands[k].fingerprint)[0]) in Kept(cands, rules)
    decreases |cands|
  {
    var n := |cands|;
    var p := cands[..n - 1];
    var x := Filled(cands[k], Matches(rules, cands[k].fingerprint)[0]);
    assert Kept(cands, rules) == Kept(p, rules) + KeptOf(cands[n - 1], rules);
    if k < n - 1 {
      assert p[k] == cands[k];
      KeptComplete(p, rules, k);
      assert x in Kept(p, rules);
    } else {
      assert KeptOf(cands[k], rules) == [x];
    }
  }

  /** An added entry is a further rule that applies to some candidate,
      carrying that candidate's certificate. */
  lemma {:induction false} ExtrasSound(cands: seq<Row>, rules: seq<Row>, x: Row)
    requires x in Extras(cands, rules)
    ensures exists k, j :: (0 <= k < |cands| && 1 <= j < |Matches(rules, cands[k].fingerprint)|
      && x == Added(cands[k].ocert, Matches(rules, cands[k].fingerprint)[j]))
    decreases |cands|
  {
    var n := |cands|;
    var p, c := cands[..n - 1], cands[n - 1];
    var ms := Matches(rules, c.fingerprint);
    if x in Extras(p, rules) {
      ExtrasSound(p, rules, x);
      var k, j :| 0 <= k < |p| && 1 <= j < |Matches(rules, p[k].fingerprint)|
        && x == Added(p[k].ocert, Matches(rules, p[k].fingerprint)[j]);
      assert cands[k] == p[k];
    } else {
      var xs := ExtrasOf(c.ocert, ms);
      var i :| 0 <= i < |xs| && xs[i] == x;
      assert x == Added(cands[n - 1].ocert, Matches(rules, cands[n - 1].fingerprint)[i + 1]);
    }
  }

  /** Every further rule that applies to a candidate is added, with the
      candidate's certificate. */
  lemma {:induction false} ExtrasComplete(cands: seq<Row>, rules: seq<Row>, k: nat, j: nat)
    requires k < |cands| && 1 <= j < |Matches(rules, cands[k].fingerprint)|
    ensures Added(cands[k].ocert, Matches(rules, cands[k].fingerprint)[j]) in Extras(cands, rules)
    decreases |cands|
  {
    var n := |cands|;
    var p, c := cands[..n - 1], cands[n - 1];
    if k < n - 1 {
      assert p[k] == cands[k];
      ExtrasComplete(p, rules, k, j);
    } else {
      assert ExtrasOf(c.ocert, Matches(rules, c.fingerprint))[j - 1]
        == Added(cands[k].ocert, Matches(rules, cands[k].fingerprint)[j]);
    }
  }

  /** An entry with row `x` can be allocated (its fingerprint fits) and
      inserted into a container holding `held` (no held entry has its
      key). */
  predicate Insertable(held: seq<Row>, x: Row) {
    && x.fingerprint.Some? && |x.fingerprint.value| <= MAP_FP_MAX
    && forall y :: y in held ==> !SameKey(y, x)
  }

  /** The entries `xs` can be allocated and inserted one after another
      into a container holding `held`. */
  predicate AllInsertable(held: seq<Row>, xs: seq<Row>) {
    forall p {:trigger Insertable(held + xs[..p], xs[p])} :: 0 <= p < |xs| ==> Insertable(held + xs[..p], xs[p])
  }

  /** One more entry can be inserted exactly when it can be inserted
      after the others. */
  lemma AllInsertableSnoc(held: seq<Row>, xs: seq<Row>, x: Row)
    ensures AllInsertable(held, xs + [x]) <==> AllInsertable(held, xs) && Insertable(held + xs, x)
  {
    var ys := xs + [x];
    assert ys[..|xs|] == xs && ys[|xs|] == x;
    forall p | 0 <= p < |xs|
      ensures ys[..p] == xs[..p] && ys[p] == xs[p]
    {
    }
  }

  /** Entries that can be inserted one after another still can when the
      last of them are left off. */
  lemma AllInsertablePrefix(held: seq<Row>, xs: seq<Row>, n: nat)
    requires n <= |xs| && AllInsertable(held, xs)
    ensures AllInsertable(held, xs[..n])
  {
    forall p | 0 <= p < n
      ensures xs[..n][..p] == xs[..p] && xs[..n][p] == xs[p]
    {
    }
  }

  /** After the first `n` entries of `xs`, the next can be inserted
      exactly when the first `n + 1` can; when it cannot, neither can all
      of `xs`. */
  lemma ExtrasStep(held: seq<Row>, xs: seq<Row>, rows: seq<Row>, n: nat)
    requires n < |xs| && rows == xs[..n] && AllInsertable(held, rows)
    ensures xs[..n + 1] == rows + [xs[n]]
    ensures AllInsertable(held, xs[..n + 1]) <==> Insertable(held + rows, xs[n])
    ensures !Insertable(held + rows, xs[n]) ==> !AllInsertable(held, xs)
  {
    assert xs[..n + 1] == rows + [xs[n]];
    AllInsertableSnoc(held, rows, xs[n]);
    if AllInsertable(held, xs) {
      AllInsertablePrefix(held, xs, n + 1);
    }
  }

  /** An entry that can be inserted beside more entries can be inserted
      beside fewer. */
  lemma InsertableFewer(held: seq<Row>, fewer: seq<Row>, x: Row)
    requires Insertable(held, x) && forall y :: y in fewer ==> y in held
    ensures Insertable(fewer, x)
  {
  }

  /** The rows the container holds when the further rules of candidate
      `i` are inserted: the kept candidates up to and including `i`, the
      candidates still to visit, and the entries added for the earlier
      candidates. */
  function Stage(cands: seq<Row>, rules: seq<Row>, i: nat): seq<Row>
    requires i < |cands|
  {
    Kept(cands[..i + 1], rules) + cands[i + 1..] + Extras(cands[..i], rules)
  }

  /** The entries added for candidate `i` can all be allocated and
      inserted. */
  predicate StepFits(cands: seq<Row>, rules: seq<Row>, i: nat)
    requires i < |cands|
  {
    AllInsertable(Stage(cands, rules, i), ExtrasOf(cands[i].ocert, Matches(rules, cands[i].fingerprint)))
  }

  /** The entries added for each of the first `n` candidates can all be
      allocated and inserted. */
  predicate StepsFit(cands: seq<Row>, rules: seq<Row>, n: nat)
    requires n <= |cands|
  {
    n == 0 || (StepsFit(cands, rules, n - 1) && StepFits(cands, rules, n - 1))
  }

  /** Resolution succeeds: for no candidate does an added entry fail to
      be allocated or inserted. */
  predicate ResolvesCleanly(cands: seq<Row>, rules: seq<Row>) {
    StepsFit(cands, rules, |cands|)
  }

  /** When the step of candidate `i` fails, so does every longer run of
      steps. */
  lemma {:induction false} StepFailsAt(cands: seq<Row>, rules: seq<Row>, n: nat, i: nat)
    requires i < n <= |cands| && !StepFits(cands, rules, i)
    ensures !StepsFit(cands, rules, n)
    decreases n
  {
    if i < n - 1 {
      StepFailsAt(cands, rules, n - 1, i);
    }
  }

  /** Every added entry has a fingerprint that fits, and a key that no
      kept entry, no candidate and no earlier added entry has. */
  predicate ExtrasFit(cands: seq<Row>, rules: seq<Row>) {
    AllInsertable(Kept(cands, rules) + cands, Extras(cands, rules))
  }

  /** The entries added for the first `m` candidates begin the entries
      added for all of them. */
  lemma {:induction false} ExtrasPrefix(cands: seq<Row>, rules: seq<Row>, m: nat)
    requires m <= |cands|
    ensures Extras(cands[..m], rules) <= Extras(cands, rules)
    decreases |cands|
  {
    if m < |cands| {
      var p := cands[..|cands| - 1];
      assert p[..m] == cands[..m];
      ExtrasPrefix(p, rules, m);
    } else {
      assert cands[..m] == cands;
    }
  }

  /** A candidate kept from the first candidates is kept from all. */
  lemma KeptWithin(cands: seq<Row>, rules: seq<Row>, m: nat, x: Row)
    requires m <= |cands| && x in Kept(cands[..m], rules)
    ensures x in Kept(cands, rules)
  {
    KeptSound(cands[..m], rules, x);
    var k :| 0 <= k < m && Matched(rules, cands[..m][k])
      && x == Filled(cands[..m][k], Matches(rules, cands[..m][k].fingerprint)[0]);
    assert cands[..m][k] == cands[k];
    KeptComplete(cands, rules, k);
  }

  /** What the container holds while the added entries of candidate `i`
      are inserted is among what ExtrasFit counts as held. */
  lemma StageWithin(cands: seq<Row>, rules: seq<Row>, i: nat, e: seq<Row>, y: Row)
    requires i < |cands| && e == Extras(cands[..i], rules) && y in Stage(cands, rules, i)
    ensures y in Kept(cands, rules) + cands || y in e
  {
    if y in Kept(cands[..i + 1], rules) {
      KeptWithin(cands, rules, i + 1, y);
    } else if y in cands[i + 1..] {
      var k :| 0 <= k < |cands[i + 1..]| && cands[i + 1..][k] == y;
      assert cands[i + 1 + k] == y;
    }
  }

  /** Entry `j` of `xs`, which follows `e` at the start of `all`, can be
      inserted into a container holding `stage` and the entries of `xs`
      before it, when `all` can be inserted into `base` and `stage` holds
      only rows of `base` and `e`. */
  lemma InsertableWithin(base: seq<Row>, all: seq<Row>, stage: seq<Row>, e: seq<Row>, xs: seq<Row>, j: nat)
    requires AllInsertable(base, all) && e + xs <= all && j < |xs|
    requires forall y :: y in stage ==> y in base || y in e
    ensures Insertable(stage + xs[..j], xs[j])
  {
    var p := |e| + j;
    assert all[p] == (e + xs)[p] == xs[j];
    assert all[..p] == (e + xs)[..p] == e + xs[..j];
    assert Insertable(base + all[..p], all[p]);
    InsertableFewer(base + all[..p], stage + xs[..j], xs[j]);
  }

  /** Candidate `i`'s added entries fit when all added entries do. */
  lemma StepFitsWhenExtrasFit(cands: seq<Row>, rules: seq<Row>, i: nat)
    requires i < |cands| && ExtrasFit(cands, rules)
    ensures StepFits(cands, rules, i)
  {
    var base := Kept(cands, rules) + cands;
    var stage := Stage(cands, rules, i);
    var e := Extras(cands[..i], rules);
    var xs := ExtrasOf(cands[i].ocert, Matches(rules, cands[i].fingerprint));
    ResolvedSnoc(cands, i, rules);
    ExtrasPrefix(cands, rules, i + 1);
    forall y | y in stage
      ensures y in base || y in e
    {
      StageWithin(cands, rules, i, e, y);
    }
    forall j | 0 <= j < |xs|
      ensures Insertable(stage + xs[..j], xs[j])
    {
      InsertableWithin(base, Extras(cands, rules), stage, e, xs, j);
    }
  }

  /** When the added entries fit beside the kept entries, the candidates
      and one another, resolution succeeds. */
  lemma ResolvesWhenExtrasFit(cands: seq<Row>, rules: seq<Row>)
    requires ExtrasFit(cands, rules)
    ensures ResolvesCleanly(cands, rules)
  {
    StepsFitWhenExtrasFit(cands, rules, |cands|);
  }

  /** The first `n` candidates' steps fit when all added entries do. */
  lemma {:induction false} StepsFitWhenExtrasFit(cands: seq<Row>, rules: seq<Row>, n: nat)
    requires n <= |cands| && ExtrasFit(cands, rules)
    ensures StepsFit(cands, rules, n)
    decreases n
  {
    if n > 0 {
      StepsFitWhenExtrasFit(cands, rules, n - 1);
      StepFitsWhenExtrasFit(cands, rules, n - 1);
    }
  }

  /** Where `m` first occurs in `s`. */
  function IndexOf(s: seq<CertMap>, m: CertMap): (k: nat)
    requires m in s
    ensures k < |s| && s[k] == m && m !in s[..k]
  {
    if s[0] == m then 0 else 1 + IndexOf(s[1..], m)
  }

  /** _fill_cert_map: `entry` takes the fields a rule gives it. */
  method FillCertMap(entry: CertMap, rule: CertMap)
    requires entry != rule
    modifies entry
    ensures RowOf(entry) == Filled(old(RowOf(entry)), RowOf(rule))
  {
    entry.priority := rule.priority;
    entry.mapType := rule.mapType;
    entry.hashType := rule.hashType;
    if rule.data.Some? {
      entry.data := rule.data;
    }
  }

  /** A container of map entries (a netsnmp_cert_map container): the
      rules read from the configuration, or the fingerprints of a
      presented chain that are to be resolved. */
  class MapTable {
    var maps: seq<CertMap>

    /** Every entry has a fingerprint, which both comparisons need. */
    ghost predicate Valid()
      reads this, maps
    {
      forall k :: 0 <= k < |maps| ==> maps[k].fingerprint.Some?
    }

    /** No two entries have the same key, as the insertions guarantee. */
    ghost predicate UniqueKeys()
      reads this, maps
    {
      forall i, j :: 0 <= i < j < |maps| ==> !SameKey(RowOf(maps[i]), RowOf(maps[j]))
    }

    /** netsnmp_cert_map_container_create: an empty container. */
    constructor ()
      ensures maps == []
    {
      maps := [];
    }

    /** CONTAINER_INSERT: `m` is added unless an entry with its key is
        already held. */
    method Insert(m: CertMap) returns (ok: bool)
      requires m !in maps
      modifies this
      ensures ok <==> forall k :: 0 <= k < |old(maps)| ==> !SameKey(RowOf(old(maps)[k]), RowOf(m))
      ensures maps == if ok then old(maps) + [m] else old(maps)
    {
      ok := forall k :: 0 <= k < |maps| ==> !SameKey(RowOf(maps[k]), RowOf(m));
      if ok {
        maps := maps + [m];
      }
    }

    /** CONTAINER_REMOVE of an entry the container holds: its first
        occurrence is taken out. */
    method Remove(m: CertMap)
      requires m in maps
      modifies this
      ensures maps == old(maps)[..IndexOf(old(maps), m)] + old(maps)[IndexOf(old(maps), m) + 1..]
    {
      var k := IndexOf(maps, m);
      maps := maps[..k] + maps[k + 1..];
    }

    /** _find_subset_fp: the entries whose fingerprint starts with `fp`,
        in container order; none for a missing fingerprint. */
    method FindSubsetFp(fp: Option<string>) returns (results: seq<CertMap>)
      ensures RowsOf(results) == Matches(RowsOf(maps), fp)
      ensures forall k :: 0 <= k < |results| ==> results[k] in maps
    {
      results := [];
      if fp.None? {
        FilterNone(RowsOf(maps), AppliesTo(fp));
        return;
      }
      var i := 0;
      while i < |maps|
        invariant 0 <= i <= |maps|
        invariant RowsOf(results) == Matches(RowsOf(maps[..i]), fp)
        invariant Among(results, maps)
      {
        var row := RowOf(maps[i]);
        RowsOfPrefixStep(maps, i);
        FilterSnoc(RowsOf(maps[..i]), row, AppliesTo(fp));
        if Applies(row, fp) {
          ghost var before := results;
          results := results + [maps[i]];
          RowsOfSnoc(before, maps[i]);
          AmongSnoc(before, maps, i);
        }
        i := i + 1;
      }
      assert maps[..|maps|] == maps;
    }

    /** The further rules after the first that apply to candidate `c`:
        each is copied into a new entry carrying the certificate of `c`
        and inserted. False when an entry cannot be allocated (its
        fingerprint is too long) or inserted (its key is held). */
    method InsertExtras(c: CertMap, results: seq<CertMap>) returns (ok: bool, ghost added: seq<CertMap>)
      requires Valid() && forall k :: 0 <= k < |results| ==> results[k].fingerprint.Some?
      modifies this
      ensures Valid()
      ensures ok ==> maps == old(maps) + added && RowsOf(added) == ExtrasOf(c.ocert, RowsOf(results))
      ensures ok <==> old(AllInsertable(RowsOf(maps), ExtrasOf(c.ocert, RowsOf(results))))
      ensures forall k :: 0 <= k < |added| ==> fresh(added[k])
    {
      ghost var held := RowsOf(maps);
      ghost var xs := ExtrasOf(c.ocert, RowsOf(results));
      RowsOfIndex(results);
      added := [];
      var j := 1;
      while j < |results|
        invariant 1 <= j <= |results| || |results| == 0
        invariant Valid() && maps == old(maps) + added && RowsOf(old(maps)) == held
        invariant |added| == if |results| == 0 then 0 else j - 1
        invariant forall k :: 0 <= k < |added| ==> fresh(added[k])
        invariant RowsOf(added) == xs[..|added|]
        invariant AllInsertable(held, xs[..|added|])
      {
        ghost var after;
        ok, after := InsertNext(c.ocert, results[j], held, xs, old(maps), added, j - 1);
        if !ok {
          return false, added;
        }
        assert |after| == j && RowsOf(after) == xs[..|after|];
        added := after;
        j := j + 1;
      }
      assert xs[..|added|] == xs;
      ok := true;
    }

    /** One turn of the loop above: the entry for the further rule `e`,
        whose row is `xs[n]`, is inserted after the `n` entries `before`
        already added to `base`, whose rows are `held`. */
    method InsertNext(ocert: Option<X509>, e: CertMap, ghost held: seq<Row>, ghost xs: seq<Row>,
                      ghost base: seq<CertMap>, ghost before: seq<CertMap>, ghost n: nat)
      returns (ok: bool, ghost after: seq<CertMap>)
      requires Valid() && e.fingerprint.Some? && maps == base + before && RowsOf(base) == held
      requires n < |xs| && xs[n] == Added(ocert, RowOf(e))
      requires RowsOf(before) == xs[..n] && AllInsertable(held, xs[..n])
      modifies this
      ensures Valid()
      ensures !ok ==> !AllInsertable(held, xs)
      ensures ok ==> |after| == |before| + 1 && after[..|before|] == before && fresh(after[|before|])
      ensures ok ==> maps == base + after && RowsOf(after) == xs[..n + 1] && AllInsertable(held, xs[..n + 1])
    {
      RowsOfAppend(base, before);
      var entry;
      ok, entry := InsertExtra(ocert, e);
      ExtrasStep(held, xs, xs[..n], n);
      after := before;
      if ok {
        after := before + [entry];
        RowsOfSnoc(before, entry);
      }
    }

    /** One entry of the loop above: a copy of rule `e` for the
        certificate `ocert`, appended to the container. */
    method InsertExtra(ocert: Option<X509>, e: CertMap) returns (ok: bool, entry: CertMap?)
      requires Valid() && e.fingerprint.Some?
      modifies this
      ensures Valid()
      ensures ok ==> entry != null && fresh(entry)
      ensures ok ==> maps == old(maps) + [entry] && RowOf(entry) == Added(ocert, RowOf(e))
      ensures ok <==> old(Insertable(RowsOf(maps), Added(ocert, RowOf(e))))
    {
      ghost var held := RowsOf(maps);
      RowsOfIndex(maps);
      entry := MapAlloc(e.fingerprint, e.ocert);
      if entry == null {
        return false, null;
      }
      FillCertMap(entry, e);
      entry.ocert := ocert;
      ok := Insert(entry);
      assert RowOf(entry) == Added(ocert, old(RowOf(e)));
    }

    /** A candidate no rule applies to is taken out of the container. */
    method DropCandidate(c: CertMap, ghost kept: seq<CertMap>, ghost rest: seq<CertMap>, ghost added: seq<CertMap>,
                         rules: MapTable)
      requires Valid() && maps == kept + [c] + rest + added && c !in kept
      requires rules.Valid() && rules != this
      modifies this
      ensures Valid() && maps == kept + rest + added
      ensures rules.Valid() && rules.maps == old(rules.maps) && RowsOf(rules.maps) == old(RowsOf(rules.maps))
      ensures RowsOf(kept) == old(RowsOf(kept)) && RowsOf(rest) == old(RowsOf(rest))
      ensures RowsOf(added) == old(RowsOf(added))
    {
      ghost var s := maps;
      Remove(c);
      ghost var k := IndexOf(s, c);
      assert s[|kept|] == c;
      if k != |kept| {
        assert false;
      }
      assert s[..k] == kept;
      assert s[k + 1..] == rest + added;
    }

    /** Filling candidate `c` changes no other entry's row. */
    method FillCandidate(c: CertMap, rule: CertMap, ghost kept: seq<CertMap>, ghost rest: seq<CertMap>,
                         ghost added: seq<CertMap>, ghost results: seq<CertMap>, rules: MapTable)
      requires Valid() && c in maps && c != rule && c !in kept && c !in rest && c !in added && c !in results
      requires rules.Valid() && c !in rules.maps
      modifies c
      ensures Valid() && RowOf(c) == Filled(old(RowOf(c)), RowOf(rule))
      ensures rules.Valid() && RowsOf(rules.maps) == old(RowsOf(rules.maps))
      ensures RowsOf(kept) == old(RowsOf(kept)) && RowsOf(added) == old(RowsOf(added))
      ensures RowsOf(rest) == old(RowsOf(rest))
      ensures RowsOf(results) == old(RowsOf(results))
    {
      FillCertMap(c, rule);
    }

    /** A candidate some rules apply to is filled from the first of them,
        and the others are added after the container's entries. */
    method KeepCandidate(c: CertMap, results: seq<CertMap>, ghost kept: seq<CertMap>, ghost rest: seq<CertMap>,
                         ghost added: seq<CertMap>, rules: MapTable)
      returns (ok: bool, ghost more: seq<CertMap>)
      requires Valid() && maps == kept + [c] + rest + added && c !in kept && c !in rest && c !in added && |results| > 0
      requires forall k :: 0 <= k < |results| ==> results[k].fingerprint.Some? && results[k] != c
      requires rules.Valid() && rules != this && c !in rules.maps
      modifies this, c
      ensures Valid() && rules.Valid() && rules.maps == old(rules.maps) && RowsOf(rules.maps) == old(RowsOf(rules.maps))
      ensures RowsOf(kept) == old(RowsOf(kept)) && RowsOf(added) == old(RowsOf(added))
      ensures RowsOf(rest) == old(RowsOf(rest)) && RowsOf(results) == old(RowsOf(results))
      ensures RowOf(c) == Filled(old(RowOf(c)), RowOf(results[0]))
      ensures ok ==> maps == (kept + [c]) + rest + (added + more)
      ensures ok ==> RowsOf(more) == ExtrasOf(c.ocert, RowsOf(results))
      ensures ok <==> AllInsertable(old(RowsOf(kept)) + [Filled(old(RowOf(c)), old(RowOf(results[0])))]
                                      + old(RowsOf(rest)) + old(RowsOf(added)),
                                    old(ExtrasOf(c.ocert, RowsOf(results))))
      ensures forall k :: 0 <= k < |more| ==> fresh(more[k])
    {
      FillCandidate(c, results[0], kept, rest, added, results, rules);
      RowsOfAppend(kept + [c] + rest, added);
      RowsOfAppend(kept + [c], rest);
      RowsOfSnoc(kept, c);
      ok, more := AddExtras(c, results, kept, rest, added, rules);
    }

    /** InsertExtras for candidate `c`, which changes no existing entry's
        row. */
    method AddExtras(c: CertMap, results: seq<CertMap>, ghost kept: seq<CertMap>, ghost rest: seq<CertMap>,
                     ghost added: seq<CertMap>, rules: MapTable)
      returns (ok: bool, ghost more: seq<CertMap>)
      requires Valid() && maps == kept + [c] + rest + added
      requires forall k :: 0 <= k < |results| ==> results[k].fingerprint.Some?
      requires rules.Valid() && rules != this
      modifies this
      ensures Valid() && rules.Valid() && rules.maps == old(rules.maps) && RowsOf(rules.maps) == old(RowsOf(rules.maps))
      ensures RowsOf(kept) == old(RowsOf(kept)) && RowsOf(added) == old(RowsOf(added))
      ensures RowsOf(rest) == old(RowsOf(rest)) && RowsOf(results) == old(RowsOf(results))
      ensures RowOf(c) == old(RowOf(c))
      ensures ok ==> maps == (kept + [c]) + rest + (added + more)
      ensures ok ==> RowsOf(more) == ExtrasOf(c.ocert, RowsOf(results))
      ensures ok <==> old(AllInsertable(RowsOf(maps), ExtrasOf(c.ocert, RowsOf(results))))
      ensures forall k :: 0 <= k < |more| ==> fresh(more[k])
    {
      ok, more := InsertExtras(c, results);
      ConcatAssoc(kept + [c] + rest, added, more);
    }

    /** One pass of the resolution loop: candidate `c`, whose row is
        `cand`, is dropped or kept against `rules`, whose rows are
        `ruleRows`. The container is `kept`, then `c` and the candidates
        still to visit, then the entries added so far. */
    method Visit(rules: MapTable, c: CertMap, ghost cand: Row, ghost ruleRows: seq<Row>,
                 ghost kept: seq<CertMap>, ghost rest: seq<CertMap>, ghost added: seq<CertMap>)
      returns (ok: bool, ghost kept': seq<CertMap>, ghost more: seq<CertMap>)
      requires Valid() && rules.Valid() && rules != this
      requires maps == kept + [c] + rest + added && c !in kept && c !in rest && c !in added && c !in rules.maps
      requires RowOf(c) == cand && RowsOf(rules.maps) == ruleRows
      modifies this, c
      ensures Valid() && rules.Valid() && rules.maps == old(rules.maps) && RowsOf(rules.maps) == ruleRows
      ensures RowsOf(rest) == old(RowsOf(rest))
      ensures ok ==> maps == kept' + rest + (added + more)
      ensures ok ==> kept' == kept + (if Matched(ruleRows, cand) then [c] else [])
      ensures ok ==> RowsOf(kept') == old(RowsOf(kept)) + KeptOf(cand, ruleRows)
      ensures ok <==> AllInsertable(old(RowsOf(kept)) + KeptOf(cand, ruleRows) + old(RowsOf(rest)) + old(RowsOf(added)),
                                    ExtrasOf(cand.ocert, Matches(ruleRows, cand.fingerprint)))
      ensures ok ==> RowsOf(added) == old(RowsOf(added))
      ensures ok ==> RowsOf(more) == ExtrasOf(cand.ocert, Matches(ruleRows, cand.fingerprint))
      ensures forall k :: 0 <= k < |more| ==> fresh(more[k])
    {
      var results := rules.FindSubsetFp(c.fingerprint);
      ok, kept', more := Settle(rules, c, results, cand, ruleRows, kept, rest, added);
    }

    /** Candidate `c` is dropped when no rule applies, `results` being the
        rules that do; otherwise it is kept. */
    method Settle(rules: MapTable, c: CertMap, results: seq<CertMap>, ghost cand: Row, ghost ruleRows: seq<Row>,
                 ghost kept: seq<CertMap>, ghost rest: seq<CertMap>, ghost added: seq<CertMap>)
      returns (ok: bool, ghost kept': seq<CertMap>, ghost more: seq<CertMap>)
      requires Valid() && rules.Valid() && rules != this
      requires maps == kept + [c] + rest + added && c !in kept && c !in rest && c !in added && c !in rules.maps
      requires RowOf(c) == cand && RowsOf(rules.maps) == ruleRows
      requires RowsOf(results) == Matches(ruleRows, cand.fingerprint)
      requires forall k :: 0 <= k < |results| ==> results[k] in rules.maps
      modifies this, c
      ensures Valid() && rules.Valid() && rules.maps == old(rules.maps) && RowsOf(rules.maps) == ruleRows
      ensures RowsOf(rest) == old(RowsOf(rest))
      ensures ok ==> maps == kept' + rest + (added + more)
      ensures ok ==> kept' == kept + (if Matched(ruleRows, cand) then [c] else [])
      ensures ok ==> RowsOf(kept') == old(RowsOf(kept)) + KeptOf(cand, ruleRows)
      ensures ok <==> AllInsertable(old(RowsOf(kept)) + KeptOf(cand, ruleRows) + old(RowsOf(rest)) + old(RowsOf(added)),
                                    ExtrasOf(cand.ocert, Matches(ruleRows, cand.fingerprint)))
      ensures ok ==> RowsOf(added) == old(RowsOf(added))
      ensures ok ==> RowsOf(more) == ExtrasOf(cand.ocert, Matches(ruleRows, cand.fingerprint))
      ensures forall k :: 0 <= k < |more| ==> fresh(more[k])
    {
      ghost var ms := Matches(ruleRows, cand.fingerprint);
      if |results| == 0 {
        DropCandidate(c, kept, rest, added, rules);
        ok, kept', more := true, kept, [];
        assert kept + rest + (added + []) == kept + rest + added;
      } else {
        ghost var first := RowOf(results[0]);
        RowsOfIndex(results);
        assert first == ms[0];
        ok, more := KeepCandidate(c, results, kept, rest, added, rules);
        kept' := kept + [c];
        if ok {
          assert RowOf(c) == Filled(cand, ms[0]);
          RowsOfAppend(kept, [c]);
        }
      }
    }

    /** netsnmp_cert_get_secname_maps: resolves every candidate of this
        container against `rules`. A candidate no rule applies to is
        removed; otherwise it is filled from the first rule that applies,
        and every further rule that applies is added as a new entry with
        the candidate's certificate. -1 for an empty container or when an
        entry cannot be allocated or inserted. */
    method GetSecnameMaps(rules: MapTable) returns (rc: int)
      requires Valid() && rules.Valid() && Distinct(maps) && rules != this
      requires forall m :: m in rules.maps ==> m !in maps
      modifies this, maps
      ensures Valid()
      ensures rc == 0 || rc == -1
      ensures |old(maps)| == 0 ==> rc == -1 && maps == old(maps)
      ensures rc == 0 ==> RowsOf(maps) == Resolved(old(RowsOf(maps)), RowsOf(rules.maps))
      ensures rc == 0 <==> |old(maps)| > 0 && old(ResolvesCleanly(RowsOf(maps), RowsOf(rules.maps)))
      ensures |old(maps)| > 0 && old(ExtrasFit(RowsOf(maps), RowsOf(rules.maps))) ==> rc == 0
    {
      if |maps| == 0 {
        return -1;
      }
      if ExtrasFit(RowsOf(maps), RowsOf(rules.maps)) {
        ResolvesWhenExtrasFit(RowsOf(maps), RowsOf(rules.maps));
      }
      DistinctNoRepeats(maps);
      rc := ResolveAll(rules);
    }

    /** The candidate at `i` stands between the candidates kept so far
        and those still to visit, and occurs in neither. */
    lemma VisitOrder(cands: seq<CertMap>, i: nat, candRows: seq<Row>, kept: seq<CertMap>, keptAt: seq<int>)
      requires i < |cands| == |candRows| && NoRepeats(cands) && RowsOf(cands[i..]) == candRows[i..]
      requires |keptAt| == |kept| && forall j :: 0 <= j < |kept| ==> 0 <= keptAt[j] < i && kept[j] == cands[keptAt[j]]
      ensures cands[i..] == [cands[i]] + cands[i + 1..] && RowsOf(cands[i + 1..]) == candRows[i + 1..]
      ensures RowOf(cands[i]) == candRows[i]
      ensures cands[i] !in kept && cands[i] !in cands[i + 1..]
    {
      var c := cands[i];
      assert cands[i..] == [c] + cands[i + 1..];
      RowsOfCons(cands[i..]);
      assert cands[i..][1..] == cands[i + 1..];
      assert RowsOf(cands[i + 1..]) == candRows[i + 1..] by {
        assert RowsOf(cands[i + 1..]) == RowsOf(cands[i..])[1..];
        assert candRows[i + 1..] == candRows[i..][1..];
      }
      assert RowOf(c) == RowsOf(cands[i..])[0] == candRows[i..][0];
      assert c !in kept by {
        forall j | 0 <= j < |kept|
          ensures kept[j] != c
        {
          NoRepeatsDiffer(cands, keptAt[j], i);
        }
      }
      assert c !in cands[i + 1..] by {
        forall j | i < j < |cands|
          ensures cands[j] != c
        {
          NoRepeatsDiffer(cands, i, j);
        }
      }
    }

    /** Each kept candidate is remembered with its position in `cands`. */
    lemma KeptAtStep(cands: seq<CertMap>, i: nat, kept: seq<CertMap>, keptAt: seq<int>, matched: bool)
      requires i < |cands| && |keptAt| == |kept|
      requires forall j :: 0 <= j < |kept| ==> 0 <= keptAt[j] < i && kept[j] == cands[keptAt[j]]
      ensures var kept', keptAt' := kept + (if matched then [cands[i]] else []), keptAt + (if matched then [i] else []);
        && |keptAt'| == |kept'|
        && forall j :: 0 <= j < |kept'| ==> 0 <= keptAt'[j] < i + 1 && kept'[j] == cands[keptAt'[j]]
    {
    }

    /** The state of the resolution loop after `i` candidates of the
        copy `cands`: the container holds the candidates kept so far
        (each remembered with its position in `cands`), then those still
        to visit, then the entries added so far, and the rows of the kept
        and added entries are what Kept and Extras give for the first `i`
        candidate rows. */
    ghost predicate Progress(rules: MapTable, cands: seq<CertMap>, i: nat, candRows: seq<Row>, ruleRows: seq<Row>,
                             kept: seq<CertMap>, keptAt: seq<int>, added: seq<CertMap>)
      reads this, maps, rules, rules.maps, cands, kept, added
    {
      && i <= |cands| == |candRows|
      && Valid() && rules.Valid() && rules != this
      && maps == kept + cands[i..] + added
      && RowsOf(rules.maps) == ruleRows && RowsOf(cands[i..]) == candRows[i..]
      && RowsOf(kept) == Kept(candRows[..i], ruleRows) && RowsOf(added) == Extras(candRows[..i], ruleRows)
      && |keptAt| == |kept|
      && forall j :: 0 <= j < |kept| ==> 0 <= keptAt[j] < i && kept[j] == cands[keptAt[j]]
    }

    /** The candidate at `i` of the copy `cands` is visited: the kept and
        added entries then have the rows Kept and Extras give for the
        first `i + 1` candidate rows. */
    method Advance(rules: MapTable, cands: seq<CertMap>, i: nat, ghost candRows: seq<Row>, ghost ruleRows: seq<Row>,
                   ghost kept: seq<CertMap>, ghost keptAt: seq<int>, ghost added: seq<CertMap>)
      returns (ok: bool, ghost kept': seq<CertMap>, ghost more: seq<CertMap>)
      requires Progress(rules, cands, i, candRows, ruleRows, kept, keptAt, added) && i < |cands|
      requires NoRepeats(cands) && cands[i] !in added && cands[i] !in rules.maps
      modifies this, cands[i]
      ensures rules.Valid() && rules.maps == old(rules.maps) && Valid() && RowsOf(rules.maps) == ruleRows
      ensures forall k :: 0 <= k < |more| ==> fresh(more[k])
      ensures RowsOf(cands[i + 1..]) == candRows[i + 1..]
      ensures ok ==> maps == kept' + cands[i + 1..] + (added + more)
      ensures ok ==> kept' == kept + (if Matched(ruleRows, candRows[i]) then [cands[i]] else [])
      ensures ok ==> RowsOf(kept') == Kept(candRows[..i + 1], ruleRows)
      ensures ok ==> RowsOf(added + more) == Extras(candRows[..i + 1], ruleRows)
      ensures ok <==> StepFits(candRows, ruleRows, i)
    {
      var c := cands[i];
      VisitOrder(cands, i, candRows, kept, keptAt);
      ResolvedSnoc(candRows, i, ruleRows);
      assert cands[i..] == [c] + cands[i + 1..];
      assert maps == kept + [c] + cands[i + 1..] + added;
      ok, kept', more := Visit(rules, c, candRows[i], ruleRows, kept, cands[i + 1..], added);
      if ok {
        RowsOfAppend(added, more);
      }
    }

    /** One turn of the resolution loop: the candidate at `i` is visited,
        the ghost account of what was kept and added moves past it, and
        so does the account of whether every step so far could insert its
        added entries; after a step that cannot, resolution cannot
        succeed. */
    method Turn(rules: MapTable, cands: seq<CertMap>, i: nat, ghost candRows: seq<Row>, ghost ruleRows: seq<Row>,
                ghost kept: seq<CertMap>, ghost keptAt: seq<int>, ghost added: seq<CertMap>)
      returns (ok: bool, ghost kept': seq<CertMap>, ghost keptAt': seq<int>, ghost more: seq<CertMap>)
      requires Progress(rules, cands, i, candRows, ruleRows, kept, keptAt, added) && i < |cands|
      requires NoRepeats(cands) && cands[i] !in added && cands[i] !in rules.maps
      requires StepsFit(candRows, ruleRows, i)
      modifies this, cands[i]
      ensures rules.Valid() && rules.maps == old(rules.maps) && Valid()
      ensures forall k :: 0 <= k < |more| ==> fresh(more[k]) && more[k] !in cands
      ensures ok ==> Progress(rules, cands, i + 1, candRows, ruleRows, kept', keptAt', added + more)
      ensures ok ==> StepsFit(candRows, ruleRows, i + 1)
      ensures !ok ==> !ResolvesCleanly(candRows, ruleRows)
    {
      ok, kept', more := Advance(rules, cands, i, candRows, ruleRows, kept, keptAt, added);
      keptAt' := keptAt + if Matched(ruleRows, candRows[i]) then [i] else [];
      if ok {
        KeptAtStep(cands, i, kept, keptAt, Matched(ruleRows, candRows[i]));
      } else {
        StepFailsAt(candRows, ruleRows, |candRows|, i);
      }
    }

    /** The loop of netsnmp_cert_get_secname_maps over a copy of the
        candidates, visiting each once in container order. */
    method ResolveAll(rules: MapTable) returns (rc: int)
      requires Valid() && rules.Valid() && NoRepeats(maps) && rules != this
      requires forall m :: m in rules.maps ==> m !in maps
      modifies this, maps
      ensures Valid()
      ensures rc == 0 || rc == -1
      ensures rc == 0 ==> RowsOf(maps) == Resolved(old(RowsOf(maps)), RowsOf(rules.maps))
      ensures rc == 0 <==> old(ResolvesCleanly(RowsOf(maps), RowsOf(rules.maps)))
    {
      var cands := maps;
      ghost var candRows := RowsOf(cands);
      ghost var ruleRows := RowsOf(rules.maps);
      ghost var ruleMaps := rules.maps;
      ghost var kept: seq<CertMap> := [];
      ghost var keptAt: seq<int> := [];
      ghost var added: seq<CertMap> := [];
      assert cands[0..] == cands && candRows[..0] == [];
      var i := 0;
      while i < |cands|
        invariant i <= |cands| && rules.maps == ruleMaps
        invariant Progress(rules, cands, i, candRows, ruleRows, kept, keptAt, added)
        invariant forall j :: 0 <= j < |added| ==> added[j] !in cands
        invariant StepsFit(candRows, ruleRows, i)
      {
        assert cands[i] !in added;
        var ok;
        ghost var more;
        ok, kept, keptAt, more := Turn(rules, cands, i, candRows, ruleRows, kept, keptAt, added);
        if !ok {
          return -1;
        }
        forall j | 0 <= j < |added + more|
          ensures (added + more)[j] !in cands
        {
          if j >= |added| {
            assert (added + more)[j] == more[j - |added|];
          }
        }
        added := added + more;
        i := i + 1;
      }
      ProgressDone(rules, cands, candRows, ruleRows, kept, keptAt, added);
      return 0;
    }

    /** After the last candidate the container holds what resolution gives. */
    lemma ProgressDone(rules: MapTable, cands: seq<CertMap>, candRows: seq<Row>, ruleRows: seq<Row>,
                       kept: seq<CertMap>, keptAt: seq<int>, added: seq<CertMap>)
      requires Progress(rules, cands, |cands|, candRows, ruleRows, kept, keptAt, added)
      ensures RowsOf(maps) == Resolved(candRows, ruleRows)
    {
      assert maps == kept + added;
      RowsOfAppend(kept, added);
      assert candRows[..|cands|] == candRows;
    }

    /** _parse_map: reads a certSecName line and inserts the rule it
        stands for, unless the line is malformed or a rule with the same
        priority and fingerprint is already held. */
    method ParseMap(tokens: seq<string>) returns (inserted: bool)
      requires Valid()
      modifies this
      ensures Valid() && (old(UniqueKeys()) ==> UniqueKeys())
      ensures inserted <==>
        && ParsedRule(tokens).Some?
        && forall k :: 0 <= k < |old(maps)| ==> !SameKey(RowOf(old(maps)[k]), ParsedRule(tokens).value)
      ensures inserted ==>
        && |maps| == |old(maps)| + 1 && maps[..|old(maps)|] == old(maps)
        && fresh(maps[|old(maps)|]) && RowOf(maps[|old(maps)|]) == ParsedRule(tokens).value
      ensures !inserted ==> maps == old(maps)
    {
      var entry := ReadRule(tokens);
      if entry == null {
        return false;
      }
      inserted := Insert(entry);
    }
  }

  /** The entry _parse_map builds from a certSecName line; null when the
      line is malformed and the entry is freed. */
  method ReadRule(tokens: seq<string>) returns (entry: CertMap?)
    ensures entry == null <==> ParsedRule(tokens).None?
    ensures entry != null ==> fresh(entry) && RowOf(entry) == ParsedRule(tokens).value
  {
    var token, line := ReadToken(tokens);
    if |token| == 0 || !IsDigit(token[0]) {
      return null;
    }
    entry := MapAlloc(None, None);
    entry.flags := entry.flags | CERT_MAP_FROM_CONFIG;
    entry.priority := Atoi(token);
    ghost var f := 1;
    token, line := ReadToken(line);
    if IsOption(token) {
      entry.hashType := ParseHt(token[2..]);
      token, line := ReadToken(line);
      f := 2;
    } else {
      entry.hashType := HASH_SHA1;
    }
    assert f == (if |tokens| > 1 && IsOption(tokens[1]) then 2 else 1);
    assert |line| > 0 ==> |tokens| > f + 1 && line == tokens[f + 1..];
    assert |line| == 0 ==> |tokens| <= f + 1;
    assert |tokens| > f ==> token == tokens[f];
    entry.fingerprint := Some(Normalize(token));
    ReadMapOption(entry, line);
    if entry.mapType == 0 {
      return null;
    }
  }

  /** The rest of _parse_map once the fingerprint is read from a
      certSecName line: the map option and, after `--sn`, the security
      name. The map type stays 0 when the line ends before the option,
      the option is unknown, or `--sn` has no name. */
  method ReadMapOption(entry: CertMap, line: seq<string>)
    requires entry.mapType == 0 && entry.data.None?
    modifies entry
    ensures entry.priority == old(entry.priority) && entry.fingerprint == old(entry.fingerprint)
    ensures entry.flags == old(entry.flags) && entry.ocert == old(entry.ocert)
    ensures entry.mapType == 0 <==>
      || |line| == 0 || !IsOption(line[0])
      || (line[0][2..] == "sn" && |line| == 1)
      || (line[0][2..] != "sn" && OptionMapType(line[0][2..]) == 0)
    ensures entry.mapType != 0 ==>
      && entry.hashType == HASH_SHA1
      && entry.mapType == (if line[0][2..] == "sn" then MAP_CERT_SPECIFIED else OptionMapType(line[0][2..]))
      && entry.data == (if line[0][2..] == "sn" then Some(line[1]) else None)
  {
    if |line| == 0 {
      return;
    }
    var token, rest := ReadToken(line);
    if !IsOption(token) {
      return;
    }
    var option := token[2..];
    if option == "sn" {
      if |rest| == 0 {
        return;
      }
      token, rest := ReadToken(rest);
      entry.data := Some(token);
      entry.mapType := MAP_CERT_SPECIFIED;
    } else {
      entry.mapType := OptionMapType(option);
    }
    entry.hashType := HASH_SHA1;
  }
}
