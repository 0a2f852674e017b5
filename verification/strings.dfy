/**
  String operations of Python's `str` that the helpers rely on: `startswith`,
  `endswith`, `split(sep)`, `join`, `replace(old, new)`, `upper()` on ASCII,
  code-point ordering of strings, and fixed-width decimal formatting.
 */
module Strings {

  predicate StartsWith(s: string, p: string) {
    |p| <= |s| && s[..|p|] == p
  }

  predicate EndsWith(s: string, p: string) {
    |p| <= |s| && s[|s| - |p|..] == p
  }

  /** `s.split(sep)` for a non-empty separator: matches are taken left to right,
      without overlap, and an empty string yields one empty segment. */
  function Split(s: string, sep: string): (parts: seq<string>)
    requires |sep| > 0
    ensures |parts| >= 1
    decreases |s|
  {
    if |s| == 0 then [""]
    else if StartsWith(s, sep) then [""] + Split(s[|sep|..], sep)
    else
      var rest := Split(s[1..], sep);
      [[s[0]] + rest[0]] + rest[1..]
  }

  /** `sep.join(parts)`. */
  function Join(parts: seq<string>, sep: string): string {
    if |parts| == 0 then ""
    else if |parts| == 1 then parts[0]
    else parts[0] + sep + Join(parts[1..], sep)
  }

  /** `s.replace(pat, rep)`: a single left-to-right scan replacing each
      non-overlapping occurrence of `pat`. */
  function ReplaceAll(s: string, pat: string, rep: string): string
    requires |pat| > 0
    decreases |s|
  {
    if |s| == 0 then ""
    else if StartsWith(s, pat) then rep + ReplaceAll(s[|pat|..], pat, rep)
    else [s[0]] + ReplaceAll(s[1..], pat, rep)
  }

  /** Python's identity `s.replace(a, b) == b.join(s.split(a))`: the scanning
      replacement agrees with splitting and re-joining. */
  lemma {:induction false} ReplaceAllIsSplitJoin(s: string, pat: string, rep: string)
    requires |pat| > 0
    ensures ReplaceAll(s, pat, rep) == Join(Split(s, pat), rep)
    decreases |s|
  {
    if |s| == 0 {
    } else if StartsWith(s, pat) {
      ReplaceAllIsSplitJoin(s[|pat|..], pat, rep);
    } else {
      var rest := Split(s[1..], pat);
      ReplaceAllIsSplitJoin(s[1..], pat, rep);
      if |rest| > 1 {
        assert Join(Split(s, pat), rep) == [s[0]] + rest[0] + rep + Join(rest[1..], rep);
      }
    }
  }

  /** Replacing a pattern by itself changes nothing. */
  lemma {:induction false} ReplaceAllSelf(s: string, pat: string)
    requires |pat| > 0
    ensures ReplaceAll(s, pat, pat) == s
    decreases |s|
  {
    if |s| == 0 {
    } else if StartsWith(s, pat) {
      ReplaceAllSelf(s[|pat|..], pat);
      assert s == pat + s[|pat|..];
    } else {
      ReplaceAllSelf(s[1..], pat);
      assert s == [s[0]] + s[1..];
    }
  }

  /** Splitting and re-joining with the same separator gives back the string. */
  lemma SplitJoinRoundTrip(s: string, sep: string)
    requires |sep| > 0
    ensures Join(Split(s, sep), sep) == s
  {
    ReplaceAllIsSplitJoin(s, sep, sep);
    ReplaceAllSelf(s, sep);
  }

  /** No segment of a split on a single character contains that character. */
  lemma {:induction false} SplitSegmentsAvoidSeparator(s: string, c: char)
    ensures forall i :: 0 <= i < |Split(s, [c])| ==> c !in Split(s, [c])[i]
    decreases |s|
  {
    if |s| == 0 {
    } else if StartsWith(s, [c]) {
      SplitSegmentsAvoidSeparator(s[1..], c);
    } else {
      SplitSegmentsAvoidSeparator(s[1..], c);
      assert s[0] != c;
    }
  }

  /** A leading segment free of the separator character is split off first. */
  lemma {:induction false} SplitFirstSegment(head: string, c: char, rest: string)
    requires c !in head
    ensures Split(head + [c] + rest, [c]) == [head] + Split(rest, [c])
    decreases |head|
  {
    var s := head + [c] + rest;
    if |head| == 0 {
      assert s == [c] + rest;
      assert StartsWith(s, [c]);
      assert s[1..] == rest;
    } else {
      assert s[0] == head[0] && head[0] in head;
      assert !StartsWith(s, [c]);
      assert s[1..] == head[1..] + [c] + rest;
      SplitFirstSegment(head[1..], c, rest);
      assert [head[0]] + head[1..] == head;
    }
  }

  /** A string free of the separator character is a single segment. */
  lemma {:induction false} SplitWithoutSeparator(s: string, c: char)
    requires c !in s
    ensures Split(s, [c]) == [s]
    decreases |s|
  {
    if |s| > 0 {
      assert s[0] in s;
      assert !StartsWith(s, [c]);
      SplitWithoutSeparator(s[1..], c);
      assert [s[0]] + s[1..] == s;
    }
  }

  /** Replacing one character by another leaves none of the first. */
  lemma {:induction false} ReplaceCharRemovesIt(s: string, c: char, d: char)
    requires c != d
    ensures c !in ReplaceAll(s, [c], [d])
    decreases |s|
  {
    if |s| > 0 {
      ReplaceCharRemovesIt(s[1..], c, d);
    }
  }

  /** `pat in s` for strings. */
  predicate Contains(s: string, pat: string)
    decreases |s|
  {
    StartsWith(s, pat) || (|s| > 0 && Contains(s[1..], pat))
  }

  /** A string with no occurrence of the pattern is left as it is. */
  lemma {:induction false} ReplaceAbsent(s: string, pat: string, rep: string)
    requires |pat| > 0 && !Contains(s, pat)
    ensures ReplaceAll(s, pat, rep) == s
    decreases |s|
  {
    if |s| > 0 {
      ReplaceAbsent(s[1..], pat, rep);
      assert [s[0]] + s[1..] == s;
    }
  }

  /** The first segment of a split is a prefix of the string. */
  lemma {:induction false} SplitFirstIsPrefix(s: string, sep: string)
    requires |sep| > 0
    ensures |Split(s, sep)[0]| <= |s| && s[..|Split(s, sep)[0]|] == Split(s, sep)[0]
    decreases |s|
  {
    if |s| > 0 && !StartsWith(s, sep) {
      SplitFirstIsPrefix(s[1..], sep);
      var head := Split(s[1..], sep)[0];
      assert Split(s, sep)[0] == [s[0]] + head;
      assert s[..|head| + 1] == [s[0]] + s[1..][..|head|];
    }
  }

  /** No segment of `s.split(sep)` contains `sep`: every occurrence was cut out. */
  lemma {:induction false} SplitSegmentsAvoidPattern(s: string, sep: string)
    requires |sep| > 0
    ensures forall i :: 0 <= i < |Split(s, sep)| ==> !Contains(Split(s, sep)[i], sep)
    decreases |s|
  {
    if |s| == 0 {
      assert !StartsWith("", sep);
    } else if StartsWith(s, sep) {
      SplitSegmentsAvoidPattern(s[|sep|..], sep);
      assert !StartsWith("", sep);
    } else {
      SplitSegmentsAvoidPattern(s[1..], sep);
      SplitFirstIsPrefix(s[1..], sep);
      var rest := Split(s[1..], sep);
      var head := [s[0]] + rest[0];
      assert s[..|head|] == head;
      assert !StartsWith(head, sep);
      assert head[1..] == rest[0];
      assert !Contains(head, sep);
      assert Split(s, sep) == [head] + rest[1..];
    }
  }

  /** A string without the character `c` does not contain `[c]`. */
  lemma {:induction false} MissingCharNotContained(s: string, c: char)
    requires c !in s
    ensures !Contains(s, [c])
    decreases |s|
  {
    if |s| > 0 {
      assert s[0] in s;
      assert forall x :: x in s[1..] ==> x in s;
      MissingCharNotContained(s[1..], c);
    }
  }

  // ---------------------------------------------------------------------------
  // Ordering: Python compares strings by code point, lexicographically.

  /** `a < b` on Python strings. */
  predicate LexLess(a: string, b: string)
    decreases |a|
  {
    if |a| == 0 then |b| > 0
    else if |b| == 0 then false
    else if a[0] < b[0] then true
    else if a[0] == b[0] then LexLess(a[1..], b[1..])
    else false
  }

  lemma {:induction false} LexIrreflexive(a: string)
    ensures !LexLess(a, a)
    decreases |a|
  {
    if |a| > 0 {
      LexIrreflexive(a[1..]);
    }
  }

  lemma {:induction false} LexTransitive(a: string, b: string, c: string)
    requires LexLess(a, b) && LexLess(b, c)
    ensures LexLess(a, c)
    decreases |a|
  {
    if |a| > 0 && |b| > 0 && |c| > 0 && a[0] == b[0] && b[0] == c[0] {
      LexTransitive(a[1..], b[1..], c[1..]);
    }
  }

  /** Distinct strings are ordered one way or the other. */
  lemma {:induction false} LexTotal(a: string, b: string)
    ensures a == b || LexLess(a, b) || LexLess(b, a)
    decreases |a|
  {
    if |a| > 0 && |b| > 0 && a[0] == b[0] {
      LexTotal(a[1..], b[1..]);
      if a[1..] == b[1..] {
        assert a == [a[0]] + a[1..] && b == [b[0]] + b[1..];
      }
    }
  }

  lemma {:induction false} LexAsymmetric(a: string, b: string)
    requires LexLess(a, b)
    ensures !LexLess(b, a)
  {
    if LexLess(b, a) {
      LexTransitive(a, b, a);
      LexIrreflexive(a);
    }
  }

  /** "Not less than" is transitive. */
  lemma LexGeqTransitive(a: string, b: string, c: string)
    requires !LexLess(a, b) && !LexLess(b, c)
    ensures !LexLess(a, c)
  {
    if LexLess(a, c) {
      LexTotal(a, b);
      if a != b {
        LexTransitive(b, a, c);
      }
    }
  }

  /** Comparing two strings whose heads have equal length compares the heads
      first and the tails only on a tie. */
  lemma {:induction false} LexConcat(a1: string, a2: string, b1: string, b2: string)
    requires |a1| == |b1|
    ensures LexLess(a1 + a2, b1 + b2) <==> LexLess(a1, b1) || (a1 == b1 && LexLess(a2, b2))
    decreases |a1|
  {
    if |a1| == 0 {
      assert a1 + a2 == a2 && b1 + b2 == b2;
    } else {
      assert (a1 + a2)[1..] == a1[1..] + a2;
      assert (b1 + b2)[1..] == b1[1..] + b2;
      LexConcat(a1[1..], a2, b1[1..], b2);
      if a1[0] == b1[0] && a1[1..] == b1[1..] {
        assert a1 == [a1[0]] + a1[1..] && b1 == [b1[0]] + b1[1..];
      }
    }
  }

  // ---------------------------------------------------------------------------
  // Decimal formatting.

  function Pow10(w: nat): nat {
    if w == 0 then 1 else 10 * Pow10(w - 1)
  }

  function DigitChar(d: nat): char
    requires d < 10
  {
    ('0' as int + d) as char
  }

  /** `n` as exactly `w` decimal digits, zero-padded (`'%0wd' % n` for `n < 10^w`). */
  function Digits(n: nat, w: nat): (s: string)
    ensures |s| == w
  {
    if w == 0 then "" else Digits(n / 10, w - 1) + [DigitChar(n % 10)]
  }

  /** Zero-padded fixed-width decimals sort as strings exactly as they sort as numbers. */
  lemma {:induction false} DigitsOrder(n: nat, m: nat, w: nat)
    requires n < Pow10(w) && m < Pow10(w)
    ensures LexLess(Digits(n, w), Digits(m, w)) <==> n < m
    ensures Digits(n, w) == Digits(m, w) <==> n == m
  {
    if w == 0 {
    } else {
      var a1, b1 := Digits(n / 10, w - 1), Digits(m / 10, w - 1);
      var dn, dm := DigitChar(n % 10), DigitChar(m % 10);
      DigitsOrder(n / 10, m / 10, w - 1);
      LexConcat(a1, [dn], b1, [dm]);
      assert LexLess([dn], [dm]) <==> n % 10 < m % 10 by {
        assert [dn][1..] == [] && [dm][1..] == [];
      }
      assert n == 10 * (n / 10) + n % 10;
      assert m == 10 * (m / 10) + m % 10;
      if Digits(n, w) == Digits(m, w) {
        assert Digits(n, w)[..w - 1] == a1 && Digits(m, w)[..w - 1] == b1;
        assert Digits(n, w)[w - 1] == dn && Digits(m, w)[w - 1] == dm;
      }
    }
  }

  /** `str(n)` for a natural number. */
  function NatToDecimal(n: nat): (s: string)
    ensures |s| >= 1
  {
    if n < 10 then [DigitChar(n)] else NatToDecimal(n / 10) + [DigitChar(n % 10)]
  }

  /** `str(i)` for any integer. */
  function IntToDecimal(i: int): string {
    if i < 0 then "-" + NatToDecimal(-i) else NatToDecimal(i)
  }

  // ---------------------------------------------------------------------------
  // Case.

  /** `c.upper()` for ASCII letters; other characters are left as they are. */
  function UpperChar(c: char): char {
    if 'a' <= c <= 'z' then (c as int - 32) as char else c
  }

  /** `s.upper()` restricted to ASCII case mapping. */
  function Upper(s: string): (u: string)
    ensures |u| == |s|
    ensures forall i :: 0 <= i < |s| ==> u[i] == UpperChar(s[i])
  {
    if |s| == 0 then "" else [UpperChar(s[0])] + Upper(s[1..])
  }

  /** ASCII case folding, as SQLite applies it to identifiers. */
  function LowerChar(c: char): char {
    if 'A' <= c <= 'Z' then (c as int + 32) as char else c
  }

  function Lower(s: string): (l: string)
    ensures |l| == |s|
    ensures forall i :: 0 <= i < |s| ==> l[i] == LowerChar(s[i])
  {
    if |s| == 0 then "" else [LowerChar(s[0])] + Lower(s[1..])
  }

  /** Equal up to ASCII case. */
  predicate SameIgnoringCase(a: string, b: string) {
    Lower(a) == Lower(b)
  }

  /** Upper-casing changes only the case: the result is the same text up to
      ASCII case, with no ASCII lower-case letter left. */
  lemma UpperOnlyChangesCase(s: string)
    ensures SameIgnoringCase(Upper(s), s)
    ensures forall i :: 0 <= i < |Upper(s)| ==> !('a' <= Upper(s)[i] <= 'z')
  {
    var u := Upper(s);
    forall i | 0 <= i < |s| ensures Lower(u)[i] == Lower(s)[i] {
      assert u[i] == UpperChar(s[i]);
    }
  }
}
