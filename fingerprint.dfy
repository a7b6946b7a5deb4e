/** Fingerprint normalisation: certificate fingerprints are compared as
    lower-case hex with the `:` separators removed. */
module Fingerprint {
  import opened CStr
  import opened Optional

  const NUL: char := 0 as char

  /** The normal form of a fingerprint: every `:` dropped and every letter
      lower-cased, the other characters kept in order. */
  function Normalize(fp: string): string
  {
    if |fp| == 0 then ""
    else if fp[0] == ':' then Normalize(fp[1..])
    else [ToLower(fp[0])] + Normalize(fp[1..])
  }

  /** A string already in normal form. */
  predicate IsNormal(fp: string) {
    forall i :: 0 <= i < |fp| ==> fp[i] != ':' && !IsUpper(fp[i])
  }

  /** The number of `:` in a string. */
  function Colons(s: string): nat {
    if |s| == 0 then 0 else (if s[0] == ':' then 1 else 0) + Colons(s[1..])
  }

  /** Normalising splits over concatenation: each character is treated on its
      own and the survivors keep their order. */
  lemma {:induction false} NormalizeAppend(a: string, b: string)
    ensures Normalize(a + b) == Normalize(a) + Normalize(b)
    decreases |a|
  {
    if |a| == 0 {
      assert a + b == b;
    } else {
      assert (a + b)[0] == a[0] && (a + b)[1..] == a[1..] + b;
      NormalizeAppend(a[1..], b);
      if a[0] != ':' {
        var x := [ToLower(a[0])];
        assert x + (Normalize(a[1..]) + Normalize(b)) == (x + Normalize(a[1..])) + Normalize(b);
      }
    }
  }

  /** Normalising one more character at the end. */
  lemma NormalizeSnoc(s: string, c: char)
    ensures Normalize(s + [c]) == Normalize(s) + (if c == ':' then "" else [ToLower(c)])
  {
    NormalizeAppend(s, [c]);
  }

  /** The result holds no `:` and no upper-case letter, and is shorter than
      the input by exactly the number of colons. */
  lemma {:induction false} NormalizeIsNormal(fp: string)
    ensures IsNormal(Normalize(fp))
    ensures |Normalize(fp)| == |fp| - Colons(fp) <= |fp|
    decreases |fp|
  {
    if |fp| > 0 {
      NormalizeIsNormal(fp[1..]);
    }
  }

  /** A string in normal form is its own normal form. */
  lemma {:induction false} NormalizeFixesNormal(fp: string)
    requires IsNormal(fp)
    ensures Normalize(fp) == fp
    decreases |fp|
  {
    if |fp| > 0 {
      NormalizeFixesNormal(fp[1..]);
    }
  }

  /** Normalising twice is normalising once. */
  lemma NormalizeIdempotent(fp: string)
    ensures Normalize(Normalize(fp)) == Normalize(fp)
  {
    NormalizeIsNormal(fp);
    NormalizeFixesNormal(Normalize(fp));
  }

  /** An example: `AA:BB:cc` becomes `aabbcc`. */
  lemma NormalizeExample()
    ensures Normalize("AA:BB:cc") == "aabbcc"
  {
    assert "AA:BB:cc" == "AA" + (":" + ("BB" + (":" + "cc")));
    NormalizeAppend("AA", ":" + ("BB" + (":" + "cc")));
    NormalizeAppend(":", "BB" + (":" + "cc"));
    NormalizeAppend("BB", ":" + "cc");
    NormalizeAppend(":", "cc");
  }

  /** The NUL-terminated C string held in `buf`: `n` characters, then NUL. */
  ghost predicate CString(buf: array<char>, n: nat)
    reads buf
  {
    n < buf.Length && buf[n] == NUL && forall i :: 0 <= i < n ==> buf[i] != NUL
  }

  /** netsnmp_fp_lowercase_and_strip_colon: rewrites the C string in `fp`
      into its normal form in place. The first loop lower-cases up to the
      first `:`; from there a second cursor copies the remaining characters
      down over the colons. A NULL buffer is left alone. */
  method LowercaseAndStripColon(fp: array?<char>, ghost n: nat)
    requires fp != null ==> CString(fp, n)
    modifies fp
    ensures fp != null ==>
      var r := Normalize(old(fp[..n]));
      |r| <= n && fp[..|r|] == r && fp[|r|] == NUL
    ensures fp != null ==> forall k :: n < k < fp.Length ==> fp[k] == old(fp[k])
  {
    if fp == null {
      return;
    }
    ghost var orig := fp[..];
    assert orig[..n] == old(fp[..n]);
    NormalizeIsNormal(orig[..n]);

    // Lower-case up to the first ':'.
    var pos := 0;
    while fp[pos] != NUL
      invariant 0 <= pos <= n
      invariant fp[..pos] == Normalize(orig[..pos]) && |Normalize(orig[..pos])| == pos
      invariant forall k :: pos <= k < fp.Length ==> fp[k] == orig[k]
      decreases n - pos
    {
      if fp[pos] == ':' {
        break;
      }
      NormalizeSnoc(orig[..pos], orig[pos]);
      assert orig[..pos + 1] == orig[..pos] + [orig[pos]];
      fp[pos] := ToLower(fp[pos]);
      pos := pos + 1;
    }
    if fp[pos] == NUL {
      assert pos == n;
      return;
    }

    // Copy the rest down to `dest`, skipping every ':'.
    var dest := pos;
    NormalizeSnoc(orig[..pos], orig[pos]);
    assert orig[..pos + 1] == orig[..pos] + [orig[pos]];
    pos := pos + 1;
    while fp[pos] != NUL
      invariant dest < pos <= n
      invariant fp[..dest] == Normalize(orig[..pos])
      invariant forall k :: pos <= k < fp.Length ==> fp[k] == orig[k]
      decreases n - pos
    {
      NormalizeSnoc(orig[..pos], orig[pos]);
      assert orig[..pos + 1] == orig[..pos] + [orig[pos]];
      if fp[pos] != ':' {
        fp[dest] := ToLower(fp[pos]);
        dest := dest + 1;
      }
      pos := pos + 1;
    }
    assert pos == n;
    fp[dest] := fp[pos];
    assert fp[..dest] == Normalize(orig[..n]);
  }

  /** EVP_MAX_MD_SIZE: the largest digest OpenSSL produces, in octets. */
  const MAX_MD_SIZE: nat := 64

  /** The longest fingerprint text of such a digest, hex pairs separated
      by `:`, with its terminating NUL. */
  const FP_TEXT_SIZE: nat := 3 * MAX_MD_SIZE

  /** strncpy into a buffer of `size` characters: `src`, then NULs up to
      the end; a source of `size` characters or more is cut short and
      left without a terminating NUL. */
  function Strncpy(src: string, size: nat): (buf: seq<char>)
    ensures |buf| == size
    ensures forall i :: 0 <= i < size ==> buf[i] == if i < |src| then src[i] else NUL
  {
    if |src| >= size then src[..size] else src + seq(size - |src|, _ => NUL)
  }

  /** The buffer holds a terminated C string. */
  predicate Terminated(buf: seq<char>) {
    exists i :: 0 <= i < |buf| && buf[i] == NUL
  }

  /** The search key buffer of _cert_find_fp as written has MAX_MD_SIZE
      characters, the size of a binary digest rather than of its text. A
      fingerprint of that many characters or more, such as the 64 hex
      digits of a SHA-256 digest, fills it without a terminating NUL, and
      the in-place normalisation then reads past its end. */
  lemma KeyBufferAsWritten(src: string)
    requires NUL !in src && |src| >= MAX_MD_SIZE
    ensures !Terminated(Strncpy(src, MAX_MD_SIZE))
  {
    var buf := Strncpy(src, MAX_MD_SIZE);
    forall i | 0 <= i < |buf|
      ensures buf[i] != NUL
    {
      assert buf[i] == src[i];
    }
  }

  /** A SHA-256 fingerprint written as hex is such a string. */
  lemma KeyBufferAsWrittenExample()
    ensures !Terminated(Strncpy(seq(64, _ => 'a'), MAX_MD_SIZE))
  {
    KeyBufferAsWritten(seq(64, _ => 'a'));
  }

  /** Normalising keeps a string free of NUL characters. */
  lemma {:induction false} NormalizeNoNul(s: string)
    requires NUL !in s
    ensures NUL !in Normalize(s)
  {
    if |s| > 0 {
      assert NUL !in s[1..] by {
        assert forall i :: 0 <= i < |s[1..]| ==> s[1..][i] == s[i + 1];
      }
      NormalizeNoNul(s[1..]);
    }
  }

  /** The key the corrected lookup searches for: the normal form of a
      fingerprint short enough for the key buffer, nothing for a longer
      one. */
  function LookupKey(fingerprint: string): (key: Option<string>)
    ensures key.Some? <==> |fingerprint| < FP_TEXT_SIZE
    ensures key.Some? ==> IsNormal(key.value) && |key.value| <= |fingerprint|
  {
    NormalizeIsNormal(fingerprint);
    if |fingerprint| < FP_TEXT_SIZE then Some(Normalize(fingerprint)) else None
  }

  /** _cert_find_fp with its search key buffer sized for the text of the
      largest digest: the key is the normal form of the whole fingerprint;
      a fingerprint too long for any digest is not looked up. */
  method SearchKey(fingerprint: string) returns (key: Option<string>)
    requires NUL !in fingerprint
    ensures key == LookupKey(fingerprint)
    ensures |fingerprint| < FP_TEXT_SIZE ==> key == Some(Normalize(fingerprint))
    ensures |fingerprint| >= FP_TEXT_SIZE ==> key.None?
  {
    if |fingerprint| >= FP_TEXT_SIZE {
      return None;
    }
    ghost var n := |fingerprint|;
    var init := Strncpy(fingerprint, FP_TEXT_SIZE);
    var buf := new char[FP_TEXT_SIZE](i requires 0 <= i < FP_TEXT_SIZE => init[i]);
    assert buf[..] == init;
    assert CString(buf, n) by {
      assert buf[n] == NUL;
      forall i | 0 <= i < n
        ensures buf[i] != NUL
      {
        assert buf[i] == fingerprint[i];
      }
    }
    LowercaseAndStripColon(buf, n);
    ghost var r := Normalize(fingerprint);
    NormalizeNoNul(fingerprint);
    var len := 0;
    while buf[len] != NUL
      invariant 0 <= len <= |r|
      invariant buf[..|r|] == r && buf[|r|] == NUL
      invariant forall k :: 0 <= k < len ==> buf[k] != NUL
      decreases |r| - len
    {
      if len == |r| {
        assert false;
      }
      len := len + 1;
    }
    key := Some(buf[..len]);
  }
}
