/** The C library string routines the trust store relies on, over strings
    without embedded NUL characters: strcmp, strncmp, strrchr, isdigit,
    isalpha/tolower in the C locale, atoi and the `%d` conversion. */
module CStr {
  import opened Optional
  import opened Seqs

  /** `s` starts with `p`. */
  predicate IsPrefix(p: string, s: string) {
    |p| <= |s| && s[..|p|] == p
  }

  /** The first `n` characters of `s`, or all of `s` if it is shorter. */
  function Take(s: string, n: nat): string {
    if n <= |s| then s[..n] else s
  }

  /** strcmp: only the sign of the result is meaningful, as in C. A string
      that ends first compares below a longer one (its NUL is the least
      character). */
  function Strcmp(a: string, b: string): (r: int)
    ensures -1 <= r <= 1
    decreases |a|
  {
    if |a| == 0 && |b| == 0 then 0
    else if |a| == 0 then -1
    else if |b| == 0 then 1
    else if a[0] < b[0] then -1
    else if a[0] > b[0] then 1
    else Strcmp(a[1..], b[1..])
  }

  /** strncmp: strcmp on at most the first `n` characters. */
  function Strncmp(a: string, b: string, n: nat): (r: int)
    ensures -1 <= r <= 1
    decreases n
  {
    if n == 0 || (|a| == 0 && |b| == 0) then 0
    else if |a| == 0 then -1
    else if |b| == 0 then 1
    else if a[0] < b[0] then -1
    else if a[0] > b[0] then 1
    else Strncmp(a[1..], b[1..], n - 1)
  }

  /** strcmp reports equality exactly for equal strings. */
  lemma {:induction false} StrcmpZeroIff(a: string, b: string)
    ensures Strcmp(a, b) == 0 <==> a == b
    decreases |a|
  {
    if |a| > 0 && |b| > 0 && a[0] == b[0] {
      StrcmpZeroIff(a[1..], b[1..]);
      assert a == [a[0]] + a[1..] && b == [b[0]] + b[1..];
    }
  }

  /** Swapping the operands of strcmp flips the sign. */
  lemma {:induction false} StrcmpAntisymmetric(a: string, b: string)
    ensures Strcmp(a, b) == -Strcmp(b, a)
    decreases |a|
  {
    if |a| > 0 && |b| > 0 && a[0] == b[0] {
      StrcmpAntisymmetric(a[1..], b[1..]);
    }
  }

  /** strcmp orders strings transitively. */
  lemma {:induction false} StrcmpTransitive(a: string, b: string, c: string)
    requires Strcmp(a, b) < 0 && Strcmp(b, c) < 0
    ensures Strcmp(a, c) < 0
    decreases |a|
  {
    if |a| > 0 && |b| > 0 && |c| > 0 && a[0] == b[0] && b[0] == c[0] {
      StrcmpTransitive(a[1..], b[1..], c[1..]);
    }
  }

  /** strncmp reports equality exactly when the first `n` characters agree. */
  lemma {:induction false} StrncmpZeroIff(a: string, b: string, n: nat)
    ensures Strncmp(a, b, n) == 0 <==> Take(a, n) == Take(b, n)
    decreases n
  {
    if n > 0 && |a| > 0 && |b| > 0 {
      if a[0] == b[0] {
        StrncmpZeroIff(a[1..], b[1..], n - 1);
        assert Take(a, n) == [a[0]] + Take(a[1..], n - 1);
        assert Take(b, n) == [b[0]] + Take(b[1..], n - 1);
      } else {
        assert Take(a, n)[0] != Take(b, n)[0];
      }
    } else if n > 0 && |a| > 0 {
      assert |Take(a, n)| > 0;
    } else if n > 0 && |b| > 0 {
      assert |Take(b, n)| > 0;
    }
  }

  /** `strncmp(s, p, strlen(p)) == 0`, the n-comparison of the container
      indexes, holds exactly when `s` starts with `p`. */
  lemma StrncmpPrefix(s: string, p: string)
    ensures Strncmp(s, p, |p|) == 0 <==> IsPrefix(p, s)
  {
    StrncmpZeroIff(s, p, |p|);
  }

  /** `strncmp(p, s, strlen(p)) == 0` (operands the other way round) also
      holds exactly when `s` starts with `p`. */
  lemma StrncmpPrefixLeft(p: string, s: string)
    ensures Strncmp(p, s, |p|) == 0 <==> IsPrefix(p, s)
  {
    StrncmpZeroIff(p, s, |p|);
  }

  /** strrchr: the index of the last occurrence of `c`, if any. */
  function LastIndexOf(s: string, c: char): (r: Option<nat>)
    ensures r.Some? ==> r.value < |s| && s[r.value] == c
    ensures r.Some? ==> forall k :: r.value < k < |s| ==> s[k] != c
    ensures r.None? <==> c !in s
    decreases |s|
  {
    if |s| == 0 then None
    else if s[|s| - 1] == c then Some(|s| - 1)
    else
      assert s == s[..|s| - 1] + [s[|s| - 1]];
      LastIndexOf(s[..|s| - 1], c)
  }

  predicate IsDigit(c: char) { '0' <= c <= '9' }

  predicate IsUpper(c: char) { 'A' <= c <= 'Z' }

  predicate IsLower(c: char) { 'a' <= c <= 'z' }

  predicate IsAlpha(c: char) { IsUpper(c) || IsLower(c) }

  /** isspace in the C locale. */
  predicate IsSpace(c: char) {
    c == ' ' || c == '\t' || c == '\n' || c == '\r' || c == '\U{B}' || c == '\U{C}'
  }

  /** `isalpha(c) ? tolower(c) : c` in the C locale. */
  function ToLower(c: char): (r: char)
    ensures !IsUpper(r)
    ensures IsAlpha(c) <==> IsAlpha(r)
    ensures !IsUpper(c) ==> r == c
  {
    if IsUpper(c) then (c as int + 32) as char else c
  }

  function DigitValue(c: char): nat
    requires IsDigit(c)
  {
    c as nat - '0' as nat
  }

  function DigitChar(d: nat): (c: char)
    requires d < 10
    ensures IsDigit(c) && DigitValue(c) == d
  {
    ('0' as nat + d) as char
  }

  /** The longest prefix of `s` made of digits. */
  function LeadingDigits(s: string): (d: string)
    ensures IsPrefix(d, s)
    ensures forall i :: 0 <= i < |d| ==> IsDigit(d[i])
    ensures |d| < |s| ==> !IsDigit(s[|d|])
  {
    if |s| == 0 || !IsDigit(s[0]) then "" else [s[0]] + LeadingDigits(s[1..])
  }

  /** The value of a string of decimal digits (0 for the empty string). */
  function DigitsValue(d: string): nat
    requires forall i :: 0 <= i < |d| ==> IsDigit(d[i])
  {
    if |d| == 0 then 0 else 10 * DigitsValue(d[..|d| - 1]) + DigitValue(d[|d| - 1])
  }

  function SkipSpace(s: string): string {
    if |s| > 0 && IsSpace(s[0]) then SkipSpace(s[1..]) else s
  }

  /** atoi: leading white space, an optional sign, then the leading digits;
      0 when there are none. (Overflow is undefined in C and not modelled.) */
  function Atoi(s: string): int {
    var t := SkipSpace(s);
    if |t| > 0 && t[0] == '-' then -(DigitsValue(LeadingDigits(t[1..]) ) as int)
    else if |t| > 0 && t[0] == '+' then DigitsValue(LeadingDigits(t[1..]))
    else DigitsValue(LeadingDigits(t))
  }

  /** The `%d` conversion of a natural number: no sign, no leading zeros. */
  function NatToString(n: nat): (s: string)
    ensures |s| > 0 && IsDigit(s[0])
    ensures forall i :: 0 <= i < |s| ==> IsDigit(s[i])
  {
    if n < 10 then [DigitChar(n)] else NatToString(n / 10) + [DigitChar(n % 10)]
  }

  /** The `%d` conversion of an integer. */
  function IntToString(i: int): string {
    if i < 0 then "-" + NatToString(-i) else NatToString(i)
  }

  /** Reading back the digits that `%d` wrote gives the number. */
  lemma {:induction false} DigitsValueOfNatToString(n: nat)
    ensures DigitsValue(NatToString(n)) == n
  {
    if n >= 10 {
      DigitsValueOfNatToString(n / 10);
      var s := NatToString(n);
      assert s[..|s| - 1] == NatToString(n / 10);
    }
  }

  /** Leading digits stop where the digits stop. */
  lemma {:induction false} LeadingDigitsOfDigitsThen(d: string, rest: string)
    requires forall i :: 0 <= i < |d| ==> IsDigit(d[i])
    requires |rest| == 0 || !IsDigit(rest[0])
    ensures LeadingDigits(d + rest) == d
  {
    if |d| > 0 {
      LeadingDigitsOfDigitsThen(d[1..], rest);
      assert (d + rest)[1..] == d[1..] + rest;
    }
  }

  /** atoi undoes `%d` when the number is followed by a non-digit (or
      nothing), for example the newline that ends a line. */
  lemma AtoiOfIntToString(i: int, rest: string)
    requires |rest| == 0 || !IsDigit(rest[0])
    ensures Atoi(IntToString(i) + rest) == i
  {
    if i < 0 {
      var n: nat := -i;
      AtoiOfNegative(n, rest);
      calc {
        IntToString(i) + rest;
        ("-" + NatToString(n)) + rest;
        { ConcatAssoc("-", NatToString(n), rest); }
        "-" + (NatToString(n) + rest);
      }
    } else {
      AtoiOfNatural(i, rest);
    }
  }

  lemma AtoiOfNatural(n: nat, rest: string)
    requires |rest| == 0 || !IsDigit(rest[0])
    ensures Atoi(NatToString(n) + rest) == n
  {
    var d := NatToString(n);
    LeadingDigitsOfDigitsThen(d, rest);
    DigitsValueOfNatToString(n);
    var s := d + rest;
    assert s[0] == d[0];
    assert SkipSpace(s) == s;
    assert LeadingDigits(s) == d;
  }

  lemma AtoiOfNegative(n: nat, rest: string)
    requires n > 0 && (|rest| == 0 || !IsDigit(rest[0]))
    ensures Atoi("-" + (NatToString(n) + rest)) == -(n as int)
  {
    var d := NatToString(n);
    LeadingDigitsOfDigitsThen(d, rest);
    DigitsValueOfNatToString(n);
    var s := "-" + (d + rest);
    assert SkipSpace(s) == s;
    assert s[1..] == d + rest;
    assert LeadingDigits(s[1..]) == d;
  }
}
