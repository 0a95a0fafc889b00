/** Decimal rendering of numbers and the `-`-separated strings the app builds its keys from. */
module Strings {

  /** True when `s` contains no `-`, the separator of the attendance keys. */
  predicate HyphenFree(s: string) {
    '-' !in s
  }

  predicate IsDigit(c: char) {
    '0' <= c <= '9'
  }

  predicate AllDigits(s: string) {
    forall i :: 0 <= i < |s| ==> IsDigit(s[i])
  }

  function DigitChar(d: nat): (c: char)
    requires d < 10
    ensures IsDigit(c)
  {
    ('0' as int + d) as char
  }

  function DigitValue(c: char): (d: nat)
    requires IsDigit(c)
    ensures d < 10 && DigitChar(d) == c
  {
    c as int - '0' as int
  }

  /** The decimal text of a non-negative integer, as a JavaScript template literal `${n}` or
      `n.toString()` writes it: at least one digit, no leading zero. */
  function Digits(n: nat): (r: string)
    ensures |r| >= 1 && AllDigits(r)
    ensures r[0] == '0' ==> n == 0
  {
    if n < 10 then [DigitChar(n)] else Digits(n / 10) + [DigitChar(n % 10)]
  }

  /** Reads a string of decimal digits back into its value (the inverse of Digits). */
  function ParseDigits(s: string): nat
    requires AllDigits(s)
  {
    if s == [] then 0 else ParseDigits(s[..|s| - 1]) * 10 + DigitValue(s[|s| - 1])
  }

  lemma {:induction false} ParseDigitsRoundTrip(n: nat)
    ensures ParseDigits(Digits(n)) == n
  {
    if n >= 10 {
      var s := Digits(n);
      assert s[..|s| - 1] == Digits(n / 10);
      assert s[|s| - 1] == DigitChar(n % 10);
      ParseDigitsRoundTrip(n / 10);
    }
  }

  lemma DigitsInjective(n: nat, m: nat)
    ensures Digits(n) == Digits(m) <==> n == m
  {
    ParseDigitsRoundTrip(n);
    ParseDigitsRoundTrip(m);
  }

  lemma DigitsHyphenFree(n: nat)
    ensures HyphenFree(Digits(n))
  {
    var s := Digits(n);
    assert forall i :: 0 <= i < |s| ==> s[i] != '-';
  }

  /** Index of the first `-` in `s`, or `|s|` when there is none. */
  function FirstHyphen(s: string): (r: nat)
    ensures r <= |s|
    ensures forall k :: 0 <= k < r ==> s[k] != '-'
    ensures r < |s| ==> s[r] == '-'
  {
    if s == [] || s[0] == '-' then 0 else 1 + FirstHyphen(s[1..])
  }

  /** A hyphen-free prefix of `s` ends at or before the first `-` of `s`. */
  lemma {:induction false} HyphenFreePrefixLength(q: string, s: string)
    requires HyphenFree(q) && q <= s
    ensures |q| <= FirstHyphen(s)
  {
    if q != [] {
      assert q[1..] <= s[1..];
      HyphenFreePrefixLength(q[1..], s[1..]);
    }
  }

  /** When `s` starts with `a-` for a hyphen-free `a`, its first `-` is the one right after `a`. */
  lemma HeadEndsAtFirstHyphen(a: string, s: string)
    requires HyphenFree(a) && a + "-" <= s
    ensures FirstHyphen(s) == |a|
  {
    assert a <= s;
    HyphenFreePrefixLength(a, s);
    assert s[|a|] == '-';
  }

  /** Two hyphen-terminated heads that both start `s` are the same head. */
  lemma HyphenHeadsAgree(a: string, c: string, s: string)
    requires HyphenFree(a) && HyphenFree(c)
    requires a + "-" <= s && c + "-" <= s
    ensures a == c
  {
    HeadEndsAtFirstHyphen(a, s);
    HeadEndsAtFirstHyphen(c, s);
    assert a == s[..|a|] == c;
  }

  /** A `-` after a hyphen-free head marks where the head ends: `a + "-" + b` determines `a` and `b`. */
  lemma SplitAtHyphen(a: string, b: string, c: string, d: string)
    requires HyphenFree(a) && HyphenFree(c)
    requires a + "-" + b == c + "-" + d
    ensures a == c && b == d
  {
    var s := a + "-" + b;
    HyphenHeadsAgree(a, c, s);
    assert b == s[|a| + 1..] == d;
  }

  /** `a-` is a prefix of `c-r` exactly when the heads agree. */
  lemma HeadPrefix(a: string, c: string, r: string)
    requires HyphenFree(a) && HyphenFree(c)
    ensures a + "-" <= c + "-" + r <==> a == c
  {
    if a + "-" <= c + "-" + r {
      HyphenHeadsAgree(a, c, c + "-" + r);
    }
  }

  /** `a-q` is a prefix of `c-r` exactly when the heads agree and `q` is a prefix of `r`. */
  lemma PrefixAfterHyphen(a: string, q: string, c: string, r: string)
    requires HyphenFree(a) && HyphenFree(c)
    ensures a + "-" + q <= c + "-" + r <==> a == c && q <= r
  {
    var s := c + "-" + r;
    if a + "-" + q <= s {
      assert a + "-" <= s;
      HeadPrefix(a, c, r);
      assert q == (a + "-" + q)[|a| + 1..] == s[|a| + 1..|a| + 1 + |q|] == r[..|q|];
    }
    if a == c && q <= r {
      assert (a + "-" + q) == s[..|a| + 1 + |q|];
    }
  }

  /** A hyphen-free `q` is a prefix of `c-r`, for a hyphen-free `c`, exactly when it is a prefix of `c`. */
  lemma PrefixBeforeHyphen(q: string, c: string, r: string)
    requires HyphenFree(q) && HyphenFree(c)
    ensures q <= c + "-" + r <==> q <= c
  {
    var s := c + "-" + r;
    if q <= s {
      HyphenFreePrefixLength(q, s);
      HeadEndsAtFirstHyphen(c, s);
      assert q == s[..|q|] == c[..|q|];
    }
  }
}
