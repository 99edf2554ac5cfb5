/**
 * The string operations the matcher and the summary formatter rely on:
 * lower-casing (`str.lower()`), substring membership (`p in s`) and the
 * decimal rendering of a study number (`f"{i}"`).
 */
module Text {

  // ---------------------------------------------------------------------
  // Lower-casing
  // ---------------------------------------------------------------------

  predicate IsUpper(c: char) {
    'A' <= c <= 'Z'
  }

  /** `c.lower()` on the ASCII range: 'A'..'Z' become 'a'..'z', every other character is kept. */
  function LowerChar(c: char): char {
    if IsUpper(c) then (c as int - 'A' as int + 'a' as int) as char else c
  }

  /**
   * `s.lower()`, one character at a time: same length, no upper-case letter
   * left, and every character that is not an upper-case letter kept.
   */
  function Lower(s: string): (r: string)
    ensures |r| == |s|
    ensures forall k :: 0 <= k < |r| ==> !IsUpper(r[k])
    ensures forall k :: 0 <= k < |s| && !IsUpper(s[k]) ==> r[k] == s[k]
  {
    if s == [] then [] else [LowerChar(s[0])] + Lower(s[1..])
  }

  /** Lower-casing works position by position. */
  lemma {:induction false} LowerAt(s: string, k: nat)
    requires k < |s|
    ensures Lower(s)[k] == LowerChar(s[k])
  {
    if k > 0 {
      LowerAt(s[1..], k - 1);
    }
  }

  /** Lower-casing a slice is slicing the lower-cased string. */
  lemma {:induction false} LowerSlice(s: string, i: nat, j: nat)
    requires i <= j <= |s|
    ensures Lower(s[i..j]) == Lower(s)[i..j]
  {
    var piece, lowered := s[i..j], Lower(s);
    forall k | 0 <= k < j - i
      ensures Lower(piece)[k] == lowered[i + k]
    {
      LowerAt(piece, k);
      LowerAt(s, i + k);
    }
  }

  /** The result of `lower()` has no upper-case letter left. */
  lemma LowerHasNoUpper(s: string, k: nat)
    requires k < |s|
    ensures !IsUpper(Lower(s)[k])
  {
    LowerAt(s, k);
  }

  /** A string without upper-case letters is its own lower-case form. */
  lemma {:induction false} LowerKeepsLowercase(s: string)
    requires forall k :: 0 <= k < |s| ==> !IsUpper(s[k])
    ensures Lower(s) == s
  {
    if s != [] {
      LowerKeepsLowercase(s[1..]);
    }
  }

  /** `s.lower().lower() == s.lower()`. */
  lemma LowerIdempotent(s: string)
    ensures Lower(Lower(s)) == Lower(s)
  {
    forall k | 0 <= k < |s|
      ensures !IsUpper(Lower(s)[k])
    {
      LowerHasNoUpper(s, k);
    }
    LowerKeepsLowercase(Lower(s));
  }

  // ---------------------------------------------------------------------
  // Substring membership
  // ---------------------------------------------------------------------

  /** `p` sits in `s` starting at index `i`. */
  predicate OccursAt(s: string, p: string, i: nat) {
    i + |p| <= |s| && s[i..i + |p|] == p
  }

  /** Python's `p in s` on strings: `p` is a contiguous piece of `s`; the empty string is in every string. */
  predicate Contains(s: string, p: string)
    ensures Contains(s, p) ==> |p| <= |s|
    ensures p == [] ==> Contains(s, p)
    decreases |s|
  {
    p <= s || (s != [] && Contains(s[1..], p))
  }

  /** An occurrence at any index makes `p in s` true. */
  lemma {:induction false} OccursContains(s: string, p: string, i: nat)
    requires OccursAt(s, p, i)
    ensures Contains(s, p)
    decreases i
  {
    if i == 0 {
      assert p <= s;
    } else {
      assert s[1..][i - 1..i - 1 + |p|] == s[i..i + |p|];
      OccursContains(s[1..], p, i - 1);
    }
  }

  /** `p in s` means `p` occurs in `s` at some index. */
  lemma {:induction false} ContainsOccurs(s: string, p: string)
    requires Contains(s, p)
    ensures exists i: nat :: OccursAt(s, p, i)
    decreases |s|
  {
    if p <= s {
      assert OccursAt(s, p, 0);
    } else {
      ContainsOccurs(s[1..], p);
      var j: nat :| OccursAt(s[1..], p, j);
      assert s[1..][j..j + |p|] == s[j + 1..j + 1 + |p|];
      assert OccursAt(s, p, j + 1);
    }
  }

  /** The recursive definition of `p in s` agrees with the index-based one, both ways. */
  lemma ContainsIff(s: string, p: string)
    ensures Contains(s, p) <==> exists i: nat :: OccursAt(s, p, i)
  {
    if Contains(s, p) {
      ContainsOccurs(s, p);
    }
    if exists i: nat :: OccursAt(s, p, i) {
      var i: nat :| OccursAt(s, p, i);
      OccursContains(s, p, i);
    }
  }

  /** Case-insensitive matching: an exact occurrence survives lower-casing both sides. */
  lemma {:induction false} ContainsLower(s: string, p: string)
    requires Contains(s, p)
    ensures Contains(Lower(s), Lower(p))
  {
    ContainsOccurs(s, p);
    var i: nat :| OccursAt(s, p, i);
    LowerSlice(s, i, i + |p|);
    assert OccursAt(Lower(s), Lower(p), i);
    OccursContains(Lower(s), Lower(p), i);
  }

  /** A piece of the middle part of a concatenation is a piece of the whole. */
  lemma ContainsInMiddle(a: string, b: string, c: string, p: string)
    requires Contains(b, p)
    ensures Contains(a + b + c, p)
  {
    ContainsOccurs(b, p);
    var i: nat :| OccursAt(b, p, i);
    assert (a + b + c)[|a| + i..|a| + i + |p|] == b[i..i + |p|];
    OccursContains(a + b + c, p, |a| + i);
  }

  // ---------------------------------------------------------------------
  // Decimal numerals
  // ---------------------------------------------------------------------

  predicate IsDigit(c: char) {
    '0' <= c <= '9'
  }

  predicate IsDigits(s: string) {
    forall k :: 0 <= k < |s| ==> IsDigit(s[k])
  }

  function DigitChar(d: nat): (c: char)
    requires d < 10
    ensures IsDigit(c)
  {
    ('0' as int + d) as char
  }

  function DigitValue(c: char): nat
    requires IsDigit(c)
  {
    c as int - '0' as int
  }

  /** `str(n)` for a non-negative int: decimal digits, most significant first, no leading zero. */
  function NatToString(n: nat): (r: string)
    ensures |r| >= 1 && IsDigits(r)
    ensures r[0] == '0' ==> n == 0
    decreases n
  {
    if n < 10 then [DigitChar(n)] else NatToString(n / 10) + [DigitChar(n % 10)]
  }

  /** The value of a string of decimal digits (`int(s)`; 0 for the empty string). */
  function ParseDecimal(s: string): nat
    requires IsDigits(s)
  {
    if s == [] then 0 else 10 * ParseDecimal(s[..|s| - 1]) + DigitValue(s[|s| - 1])
  }

  /** The rendered number reads back as the number: `int(str(n)) == n`. */
  lemma {:induction false} ParseNatToString(n: nat)
    ensures ParseDecimal(NatToString(n)) == n
    decreases n
  {
    var r := NatToString(n);
    if n < 10 {
      assert r[..|r| - 1] == [];
    } else {
      ParseNatToString(n / 10);
      assert r[..|r| - 1] == NatToString(n / 10);
    }
  }

  /** Distinct numbers render differently. */
  lemma NatToStringInjective(m: nat, n: nat)
    requires NatToString(m) == NatToString(n)
    ensures m == n
  {
    ParseNatToString(m);
    ParseNatToString(n);
  }
}
