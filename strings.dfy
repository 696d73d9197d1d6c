/**
 * Character-level helpers: decimal digits as the regular-expression class `\d`
 * sees them, `parseInt(_, 10)` on a digit run, the decimal rendering a template
 * literal `${n}` produces, and substring search (`String.prototype.includes`).
 */
module Strings {

  predicate IsDigit(c: char) {
    '0' <= c <= '9'
  }

  predicate AllDigits(s: string) {
    forall k :: 0 <= k < |s| ==> IsDigit(s[k])
  }

  function DigitValue(c: char): (d: nat)
    requires IsDigit(c)
    ensures d < 10
  {
    (c as int - '0' as int) as nat
  }

  function DigitChar(d: nat): (c: char)
    requires d < 10
    ensures IsDigit(c) && DigitValue(c) == d
  {
    ('0' as int + d) as char
  }

  /** The value `parseInt(s, 10)` gives a run of decimal digits (unbounded). */
  function DigitsValue(s: string): nat
    requires AllDigits(s)
  {
    if s == [] then 0 else 10 * DigitsValue(s[..|s| - 1]) + DigitValue(s[|s| - 1])
  }

  /**
   * `DigitsValue(s[lo..hi])`, read in place on the positions of `s`; it is only
   * ever applied to runs of digits (a non-digit would count as 0).
   */
  function NumberAt(s: string, lo: nat, hi: nat): nat
    requires lo <= hi <= |s|
    decreases hi
  {
    if hi == lo then 0
    else 10 * NumberAt(s, lo, hi - 1) + (if IsDigit(s[hi - 1]) then DigitValue(s[hi - 1]) else 0)
  }

  /** On a run of digits, reading in place gives the value of the run taken out of `s`. */
  lemma {:induction false} NumberAtIsDigitsValue(s: string, lo: nat, hi: nat)
    requires lo <= hi <= |s|
    requires AllDigits(s[lo..hi])
    ensures NumberAt(s, lo, hi) == DigitsValue(s[lo..hi])
    decreases hi
  {
    if hi > lo {
      assert s[hi - 1] == s[lo..hi][hi - 1 - lo];
      assert s[lo..hi][..hi - 1 - lo] == s[lo..hi - 1];
      NumberAtIsDigitsValue(s, lo, hi - 1);
    }
  }

  /** The decimal text of `n`; parsing it back gives `n`. */
  function NatToString(n: nat): (s: string)
    ensures |s| >= 1 && AllDigits(s)
    ensures DigitsValue(s) == n
  {
    if n < 10 then [DigitChar(n)]
    else
      var prefix := NatToString(n / 10);
      var s := prefix + [DigitChar(n % 10)];
      assert s[..|s| - 1] == prefix;
      s
  }

  /** The decimal text has no leading zero: its first digit is `0` only for 0 itself. */
  lemma {:induction false} NatToStringCanonical(n: nat)
    ensures NatToString(n)[0] == '0' <==> n == 0
  {
    if n >= 10 {
      NatToStringCanonical(n / 10);
      assert NatToString(n)[0] == NatToString(n / 10)[0];
    } else {
      assert DigitValue(NatToString(n)[0]) == n;
    }
  }

  /** The index just past the longest run of digits that starts at `from`. */
  function DigitRunEnd(s: string, from: nat): (e: nat)
    requires from <= |s|
    ensures from <= e <= |s|
    decreases |s| - from
  {
    if from < |s| && IsDigit(s[from]) then DigitRunEnd(s, from + 1) else from
  }

  /** The run found is all digits, and what follows it, if anything, is not a digit. */
  lemma {:induction false} DigitRunEndIsRun(s: string, from: nat)
    requires from <= |s|
    ensures AllDigits(s[from..DigitRunEnd(s, from)])
    ensures DigitRunEnd(s, from) == |s| || !IsDigit(s[DigitRunEnd(s, from)])
    decreases |s| - from
  {
    if from < |s| && IsDigit(s[from]) {
      DigitRunEndIsRun(s, from + 1);
      var e := DigitRunEnd(s, from);
      assert s[from..e] == [s[from]] + s[from + 1..e];
    }
  }

  /** A run of digits followed by a non-digit (or the end) is the run `DigitRunEnd` finds. */
  lemma DigitRunEndAt(s: string, from: nat, e: nat)
    requires from <= e <= |s|
    requires AllDigits(s[from..e])
    requires e == |s| || !IsDigit(s[e])
    ensures DigitRunEnd(s, from) == e
  {
    DigitRunEndIsRun(s, from);
  }

  /** `lit` occurs in `s` at position `k`, compared one character at a time. */
  predicate LiteralAt(s: string, k: nat, lit: string) {
    LiteralFrom(s, k, lit, 0)
  }

  /** The characters `lit[m..]` occur in `s` from position `k + m` on. */
  predicate LiteralFrom(s: string, k: nat, lit: string, m: nat)
    requires m <= |lit|
    decreases |lit| - m
  {
    m == |lit| || (k + m < |s| && s[k + m] == lit[m] && LiteralFrom(s, k, lit, m + 1))
  }

  /** Within bounds, the character comparison agrees with the pointwise reading. */
  lemma {:induction false} LiteralFromPointwise(s: string, k: nat, lit: string, m: nat)
    requires m <= |lit| && k + |lit| <= |s|
    ensures LiteralFrom(s, k, lit, m) <==> forall t :: m <= t < |lit| ==> s[k + t] == lit[t]
    decreases |lit| - m
  {
    if m < |lit| {
      LiteralFromPointwise(s, k, lit, m + 1);
    }
  }

  /** Within bounds, comparing character by character is comparing the slice. */
  lemma LiteralAtIsSlice(s: string, k: nat, lit: string)
    requires k + |lit| <= |s|
    ensures LiteralAt(s, k, lit) <==> s[k..k + |lit|] == lit
  {
    LiteralFromPointwise(s, k, lit, 0);
    var window := s[k..k + |lit|];
    assert forall t :: 0 <= t < |lit| ==> window[t] == s[k + t];
  }

  predicate OccursAt(s: string, sub: string, k: nat) {
    k + |sub| <= |s| && s[k..k + |sub|] == sub
  }

  /** `s.includes(sub)`. */
  predicate Contains(s: string, sub: string) {
    exists k :: 0 <= k <= |s| - |sub| && OccursAt(s, sub, k)
  }
}
