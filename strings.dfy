/**
 * The JavaScript string operations both pages rely on, over `string`
 * (a `seq<char>`): `toLowerCase` (ASCII letters only), `includes`,
 * `endsWith`, `Number.prototype.toString` on non-negative integers below
 * 10^21 (from there on JavaScript switches to exponent notation) and
 * `split(".").pop()`.
 */
module Strings {

  /** `toLowerCase` on one character: only the ASCII letters 'A'..'Z' change. */
  function LowerChar(c: char): char
  {
    if 'A' <= c <= 'Z' then (c as int + 32) as char else c
  }

  /** `toLowerCase` on a string, character by character. */
  function Lower(s: string): (r: string)
    ensures |r| == |s|
  {
    seq(|s|, i requires 0 <= i < |s| => LowerChar(s[i]))
  }

  /** A string with no ASCII upper-case letter. */
  ghost predicate IsLower(s: string)
  {
    forall i :: 0 <= i < |s| ==> !('A' <= s[i] <= 'Z')
  }

  /** A string without upper-case ASCII letters is its own lower-case form. */
  lemma LowerOfLower(s: string)
    requires IsLower(s)
    ensures Lower(s) == s
  {
  }

  /** Lower-casing commutes with taking a slice. */
  lemma LowerSlice(s: string, i: nat, j: nat)
    requires i <= j <= |s|
    ensures Lower(s[i..j]) == Lower(s)[i..j]
  {
  }

  /** Lower-casing never creates or removes a '.'. */
  lemma LowerKeepsDots(s: string)
    ensures forall i :: 0 <= i < |s| ==> (Lower(s)[i] == '.' <==> s[i] == '.')
  {
  }

  /** `t` occurs in `s` starting at index `i`. */
  ghost predicate OccursAt(s: string, t: string, i: int)
  {
    0 <= i && i + |t| <= |s| && s[i..i + |t|] == t
  }

  /** `s.includes(t)`: the empty string is included in every string. */
  function Contains(s: string, t: string): bool
    decreases |s|
  {
    if |t| > |s| then false
    else if s[..|t|] == t then true
    else |s| > 0 && Contains(s[1..], t)
  }

  /** `Contains` holds exactly when `t` occurs somewhere in `s`. */
  lemma {:induction false} ContainsIff(s: string, t: string)
    ensures Contains(s, t) <==> exists i :: OccursAt(s, t, i)
    decreases |s|
  {
    if |t| > |s| {
    } else if s[..|t|] == t {
      assert OccursAt(s, t, 0);
    } else {
      ContainsIff(s[1..], t);
      if Contains(s[1..], t) {
        var i :| OccursAt(s[1..], t, i);
        assert s[1..][i..i + |t|] == s[i + 1..i + 1 + |t|];
        assert OccursAt(s, t, i + 1);
      }
      if exists i :: OccursAt(s, t, i) {
        var i :| OccursAt(s, t, i);
        assert i != 0;
        assert s[1..][i - 1..i - 1 + |t|] == s[i..i + |t|];
        assert OccursAt(s[1..], t, i - 1);
      }
    }
  }

  /** A string contains each of its own prefixes. */
  lemma ContainsPrefix(s: string, n: nat)
    requires n <= |s|
    ensures Contains(s, s[..n])
  {
  }

  /** A non-empty `t` whose first character `s` lacks does not occur in `s`. */
  lemma ContainsNeedsFirstChar(s: string, t: string)
    requires |t| > 0 && t[0] !in s
    ensures !Contains(s, t)
  {
    ContainsIff(s, t);
  }

  /** `s.endsWith(t)`. */
  function EndsWith(s: string, t: string): bool
  {
    |t| <= |s| && s[|s| - |t|..] == t
  }

  // ----- decimal rendering of a non-negative integer -----

  function DigitChar(d: nat): char
    requires d < 10
  {
    ('0' as int + d) as char
  }

  ghost predicate IsDigit(c: char)
  {
    '0' <= c <= '9'
  }

  function DigitValue(c: char): nat
    requires IsDigit(c)
  {
    c as int - '0' as int
  }

  /**
   * `n.toString()` for a non-negative integer `n` below 10^21: most
   * significant digit first. Larger numbers are not modelled.
   */
  function NatToString(n: nat): (r: string)
    ensures |r| > 0
    decreases n
  {
    if n < 10 then [DigitChar(n)] else NatToString(n / 10) + [DigitChar(n % 10)]
  }

  /** A canonical decimal numeral: digits only, non-empty, no leading zero unless it is "0". */
  ghost predicate IsCanonicalDecimal(s: string)
  {
    && |s| > 0
    && (forall i :: 0 <= i < |s| ==> IsDigit(s[i]))
    && (|s| > 1 ==> s[0] != '0')
  }

  /** The value of a string of digits (the reference reading of a numeral). */
  ghost function ParseDecimal(s: string): nat
    requires forall i :: 0 <= i < |s| ==> IsDigit(s[i])
  {
    if |s| == 0 then 0 else ParseDecimal(s[..|s| - 1]) * 10 + DigitValue(s[|s| - 1])
  }

  /** `toString` yields a canonical numeral that reads back as `n`. */
  lemma {:induction false} NatToStringParses(n: nat)
    ensures IsCanonicalDecimal(NatToString(n))
    ensures ParseDecimal(NatToString(n)) == n
    decreases n
  {
    if n >= 10 {
      NatToStringParses(n / 10);
      var s := NatToString(n);
      assert s[..|s| - 1] == NatToString(n / 10);
    }
  }

  /** A numeral of more than one digit without a leading zero is worth at least 10. */
  lemma {:induction false} ParseDecimalLowerBound(s: string)
    requires |s| > 0 && (forall i :: 0 <= i < |s| ==> IsDigit(s[i])) && s[0] != '0'
    ensures ParseDecimal(s) >= 1
    ensures |s| > 1 ==> ParseDecimal(s) >= 10
    decreases |s|
  {
    if |s| > 1 {
      ParseDecimalLowerBound(s[..|s| - 1]);
    }
  }

  /** Every canonical numeral is the `toString` of its value. */
  lemma {:induction false} CanonicalIsNatToString(s: string)
    requires IsCanonicalDecimal(s)
    ensures NatToString(ParseDecimal(s)) == s
    decreases |s|
  {
    if |s| > 1 {
      var p := s[..|s| - 1];
      assert p[0] == s[0];
      CanonicalIsNatToString(p);
      ParseDecimalLowerBound(s);
      var n := ParseDecimal(s);
      assert n / 10 == ParseDecimal(p) && n % 10 == DigitValue(s[|s| - 1]);
      assert s == p + [s[|s| - 1]];
    }
  }

  /** The exact set of strings `toString` can produce for `n`: one, its canonical numeral. */
  lemma NatToStringIff(n: nat, s: string)
    ensures NatToString(n) == s <==> IsCanonicalDecimal(s) && ParseDecimal(s) == n
  {
    NatToStringParses(n);
    if IsCanonicalDecimal(s) && ParseDecimal(s) == n {
      CanonicalIsNatToString(s);
    }
  }

  /** `toString` is injective. */
  lemma NatToStringInjective(m: nat, n: nat)
    requires NatToString(m) == NatToString(n)
    ensures m == n
  {
    NatToStringParses(m);
    NatToStringParses(n);
  }

  // ----- split(".").pop() -----

  /**
   * `s.split(".").pop()`: the part of `s` after its last '.', or all of `s`
   * when it has no '.'.
   */
  function AfterLastDot(s: string): (r: string)
    ensures |r| <= |s| && s[|s| - |r|..] == r
    ensures '.' !in r
    ensures |r| == |s| || s[|s| - |r| - 1] == '.'
    decreases |s|
  {
    if |s| == 0 then ""
    else if s[|s| - 1] == '.' then ""
    else AfterLastDot(s[..|s| - 1]) + [s[|s| - 1]]
  }

  /** The extension of `prefix + "." + e` is `e` when `e` has no '.'. */
  lemma {:induction false} AfterLastDotIs(prefix: string, e: string)
    requires '.' !in e
    ensures AfterLastDot(prefix + "." + e) == e
    decreases |e|
  {
    var s := prefix + "." + e;
    if e != [] {
      var init := e[..|e| - 1];
      assert s[..|s| - 1] == prefix + "." + init;
      assert s[|s| - 1] == e[|e| - 1];
      AfterLastDotIs(prefix, init);
      assert e == init + [e[|e| - 1]];
    }
  }

  /** A name without '.' is its own extension. */
  lemma {:induction false} AfterLastDotNoDot(e: string)
    requires '.' !in e
    ensures AfterLastDot(e) == e
    decreases |e|
  {
    if e != [] {
      var init := e[..|e| - 1];
      AfterLastDotNoDot(init);
      assert e == init + [e[|e| - 1]];
    }
  }
}
