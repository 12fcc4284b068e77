/**
 * Strings as sequences of characters: decimal rendering and parsing, padding,
 * ASCII lower-casing, substring search, first-occurrence replacement, joining,
 * and the code-unit lexicographic order that both Python's `<` on `str` and
 * (for ASCII keys) JavaScript's `localeCompare` follow.
 */
module Text {

  // ---------------------------------------------------------------------------
  // Digits and decimal numbers
  // ---------------------------------------------------------------------------

  predicate IsDigit(c: char) { '0' <= c <= '9' }

  predicate AllDigits(s: string) { forall i :: 0 <= i < |s| ==> IsDigit(s[i]) }

  function DigitChar(d: nat): (c: char)
    requires d < 10
    ensures IsDigit(c)
  {
    (('0' as int) + d) as char
  }

  function DigitValue(c: char): nat
    requires IsDigit(c)
  {
    (c as int) - ('0' as int)
  }

  function Pow10(w: nat): (p: nat)
    ensures p >= 1
  {
    if w == 0 then 1 else 10 * Pow10(w - 1)
  }

  /** Unpadded decimal rendering of a natural number, as `str(n)` or a template literal gives it. */
  function NatToString(n: nat): (s: string)
    ensures |s| >= 1 && AllDigits(s)
    ensures n >= 10 ==> s == NatToString(n / 10) + [DigitChar(n % 10)]
    decreases n
  {
    if n < 10 then [DigitChar(n)] else NatToString(n / 10) + [DigitChar(n % 10)]
  }

  /** Decimal rendering of an integer, with a leading '-' when negative. */
  function IntToString(n: int): (s: string)
    ensures |s| >= 1 && (s[0] == '-' <==> n < 0)
    ensures var digits := if n < 0 then s[1..] else s; |digits| >= 1 && AllDigits(digits)
  {
    if n >= 0 then NatToString(n) else "-" + NatToString(-n)
  }

  /** The value of a string of decimal digits; leading zeros are allowed. */
  function ParseDigits(s: string): nat
    requires AllDigits(s)
  {
    if s == [] then 0 else 10 * ParseDigits(s[..|s| - 1]) + DigitValue(s[|s| - 1])
  }

  /** Fixed-width decimal: the last `w` digits of `n`, with leading zeros. */
  function FixedDigits(n: nat, w: nat): (s: string)
    ensures |s| == w && AllDigits(s)
  {
    if w == 0 then [] else FixedDigits(n / 10, w - 1) + [DigitChar(n % 10)]
  }

  /** `s` left-padded with `c` to at least `width` characters (Python's `:03d`, date-fns `yyyy`/`MM`). */
  function PadLeft(s: string, width: nat, c: char): (r: string)
    ensures |r| == if |s| >= width then |s| else width
    ensures |r| >= |s| && r[|r| - |s|..] == s
    ensures forall i :: 0 <= i < |r| - |s| ==> r[i] == c
  {
    if |s| >= width then s else seq(width - |s|, _ => c) + s
  }

  lemma {:induction false} ParseNatToString(n: nat)
    ensures ParseDigits(NatToString(n)) == n
    decreases n
  {
    var s := NatToString(n);
    if n >= 10 {
      ParseNatToString(n / 10);
      assert s[..|s| - 1] == NatToString(n / 10);
    }
  }

  /** The digits after the optional minus sign read back as the magnitude. */
  lemma IntToStringParses(n: int)
    ensures var s := IntToString(n);
      var digits := if n < 0 then s[1..] else s;
      AllDigits(digits) && ParseDigits(digits) == if n < 0 then -n else n
  {
    if n < 0 {
      assert IntToString(n)[1..] == NatToString(-n);
      ParseNatToString(-n);
    } else {
      ParseNatToString(n);
    }
  }

  lemma {:induction false} ParseLeadingZeros(k: nat, s: string)
    requires AllDigits(s)
    ensures AllDigits(seq(k, _ => '0') + s)
    ensures ParseDigits(seq(k, _ => '0') + s) == ParseDigits(s)
    decreases |s|
  {
    var z := seq(k, _ => '0');
    if s == [] {
      ZerosParseToZero(k);
      assert z + s == z;
    } else {
      var t := z + s;
      ParseLeadingZeros(k, s[..|s| - 1]);
      assert t[..|t| - 1] == z + s[..|s| - 1];
    }
  }

  lemma {:induction false} ZerosParseToZero(k: nat)
    ensures AllDigits(seq(k, _ => '0')) && ParseDigits(seq(k, _ => '0')) == 0
  {
    if k > 0 {
      var z := seq(k, _ => '0');
      ZerosParseToZero(k - 1);
      assert z[..k - 1] == seq(k - 1, _ => '0');
    }
  }

  /** Padding with zeros never changes the number a decimal string denotes. */
  lemma ParsePaddedNat(n: nat, width: nat)
    ensures AllDigits(PadLeft(NatToString(n), width, '0'))
    ensures ParseDigits(PadLeft(NatToString(n), width, '0')) == n
  {
    var s := NatToString(n);
    ParseNatToString(n);
    if |s| < width {
      ParseLeadingZeros(width - |s|, s);
    }
  }

  lemma {:induction false} ParseFixedDigits(n: nat, w: nat)
    requires n < Pow10(w)
    ensures ParseDigits(FixedDigits(n, w)) == n
  {
    if w > 0 {
      var s := FixedDigits(n, w);
      ParseFixedDigits(n / 10, w - 1);
      assert s[..|s| - 1] == FixedDigits(n / 10, w - 1);
    }
  }

  lemma {:induction false} NatToStringLength(n: nat, w: nat)
    requires 1 <= w && n < Pow10(w)
    ensures |NatToString(n)| <= w
    decreases n
  {
    if n >= 10 {
      assert w >= 2;
      assert n / 10 < Pow10(w - 1);
      NatToStringLength(n / 10, w - 1);
    }
  }

  /** Zero-padding the decimal rendering of a number below 10^w yields exactly its w-digit form. */
  lemma {:induction false} PaddedIsFixed(n: nat, w: nat)
    requires 1 <= w && n < Pow10(w)
    ensures PadLeft(NatToString(n), w, '0') == FixedDigits(n, w)
    decreases n
  {
    if n < 10 {
      PaddedDigitIsFixed(n, w);
    } else {
      var d := [DigitChar(n % 10)];
      assert w >= 2 && n / 10 < Pow10(w - 1);
      PaddedIsFixed(n / 10, w - 1);
      var s := NatToString(n / 10);
      NatToStringLength(n / 10, w - 1);
      PadAppend(s, d, w - 1);
    }
  }

  lemma PaddedDigitIsFixed(n: nat, w: nat)
    requires 1 <= w && n < 10
    ensures PadLeft(NatToString(n), w, '0') == FixedDigits(n, w)
  {
    ZerosAreFixed(w - 1);
    assert n / 10 == 0 && n % 10 == n;
    assert FixedDigits(n, w) == FixedDigits(0, w - 1) + [DigitChar(n)];
    assert PadLeft(NatToString(n), w, '0') == seq(w - 1, _ => '0') + [DigitChar(n)];
  }

  lemma PadAppend(s: string, d: string, w: nat)
    requires |s| <= w
    ensures PadLeft(s + d, w + |d|, '0') == PadLeft(s, w, '0') + d
  {
    assert seq(w + |d| - |s + d|, _ => '0') == seq(w - |s|, _ => '0');
  }

  lemma {:induction false} ZerosAreFixed(k: nat)
    ensures FixedDigits(0, k) == seq(k, _ => '0')
  {
    if k > 0 {
      ZerosAreFixed(k - 1);
    }
  }

  // ---------------------------------------------------------------------------
  // Case, prefixes, substrings
  // ---------------------------------------------------------------------------

  function LowerChar(c: char): char
  {
    if 'A' <= c <= 'Z' then ((c as int) + 32) as char else c
  }

  /** ASCII lower-casing (`str.lower()` and `toLowerCase()` restricted to ASCII). */
  function Lower(s: string): (r: string)
    ensures |r| == |s| && forall i :: 0 <= i < |s| ==> r[i] == LowerChar(s[i])
  {
    seq(|s|, i requires 0 <= i < |s| => LowerChar(s[i]))
  }

  predicate StartsWith(s: string, prefix: string)
  {
    |prefix| <= |s| && s[..|prefix|] == prefix
  }

  predicate EndsWith(s: string, suffix: string)
  {
    |suffix| <= |s| && s[|s| - |suffix|..] == suffix
  }

  /** `sub` occurs in `s` starting at index `i`. */
  predicate OccursAt(s: string, sub: string, i: nat)
  {
    i + |sub| <= |s| && s[i..i + |sub|] == sub
  }

  /** Substring search (Python `in`, JavaScript `includes`), scanning start positions left to right. */
  function Contains(s: string, sub: string): (r: bool)
    ensures r <==> exists i: nat :: OccursAt(s, sub, i)
    decreases |s|
  {
    if StartsWith(s, sub) then
      assert OccursAt(s, sub, 0);
      true
    else if |s| == 0 then
      false
    else
      var rest := Contains(s[1..], sub);
      ShiftOccurrence(s, sub);
      rest
  }

  lemma ShiftOccurrence(s: string, sub: string)
    requires |s| > 0 && !OccursAt(s, sub, 0)
    ensures (exists i: nat :: OccursAt(s, sub, i)) <==> (exists j: nat :: OccursAt(s[1..], sub, j))
  {
    if exists i: nat :: OccursAt(s, sub, i) {
      var i: nat :| OccursAt(s, sub, i);
      assert s[1..][i - 1..i - 1 + |sub|] == s[i..i + |sub|];
      assert i >= 1 && OccursAt(s[1..], sub, i - 1);
    }
    if exists j: nat :: OccursAt(s[1..], sub, j) {
      var j: nat :| OccursAt(s[1..], sub, j);
      assert s[1..][j..j + |sub|] == s[j + 1..j + 1 + |sub|];
      assert OccursAt(s, sub, j + 1);
    }
  }

  /** A pattern whose first character never appears in `s` does not occur in `s`. */
  lemma MissingFirstChar(s: string, sub: string)
    requires |sub| > 0 && sub[0] !in s
    ensures !Contains(s, sub)
  {
    forall i: nat
      ensures !OccursAt(s, sub, i)
    {
      if i + |sub| <= |s| {
        assert s[i..i + |sub|][0] == s[i];
      }
    }
  }

  /** Between strings of the same length, containment is equality. */
  lemma ContainsSameLength(s: string, sub: string)
    requires |s| == |sub|
    ensures Contains(s, sub) <==> s == sub
  {
    if s == sub {
      assert OccursAt(s, sub, 0);
    }
    if Contains(s, sub) {
      var i: nat :| OccursAt(s, sub, i);
      assert s[0..|s|] == s;
    }
  }

  /** The index of the first occurrence of character `c`, or `|s|` when there is none. */
  function IndexOf(s: string, c: char): (k: nat)
    ensures k <= |s| && c !in s[..k]
    ensures k < |s| ==> s[k] == c
  {
    if s == [] then 0
    else if s[0] == c then 0
    else
      var k := 1 + IndexOf(s[1..], c);
      assert s[..k] == [s[0]] + s[1..][..k - 1];
      k
  }

  /** JavaScript `s.replace(c, rep)` with a one-character string pattern: only the first occurrence is replaced. */
  function ReplaceFirst(s: string, c: char, rep: string): (r: string)
    ensures c !in s ==> r == s
    ensures c in s ==> exists k :: 0 <= k < |s| && s[k] == c && c !in s[..k] && r == s[..k] + rep + s[k + 1..]
  {
    var k := IndexOf(s, c);
    if k == |s| then
      assert s[..k] == s;
      s
    else
      s[..k] + rep + s[k + 1..]
  }

  /** When the first occurrence of `c` follows `prefix`, replacing it rewrites exactly that character. */
  lemma ReplaceFirstAfter(prefix: string, c: char, rest: string, rep: string)
    requires c !in prefix
    ensures ReplaceFirst(prefix + [c] + rest, c, rep) == prefix + rep + rest
  {
    var s := prefix + [c] + rest;
    assert s[|prefix|] == c;
    var k := IndexOf(s, c);
    assert s[..k] == prefix && s[k + 1..] == rest;
  }

  lemma DigitsHaveNoLetter(s: string, c: char)
    requires AllDigits(s) && !IsDigit(c)
    ensures c !in s
  {
  }

  /** Python `sep.join(parts)`. */
  function Join(parts: seq<string>, sep: string): string
  {
    if parts == [] then ""
    else if |parts| == 1 then parts[0]
    else parts[0] + sep + Join(parts[1..], sep)
  }

  /** Python `s[:n]`: the first `n` characters, or all of `s` when it is shorter. */
  function Take(s: string, n: nat): (r: string)
    ensures |r| == if |s| <= n then |s| else n
    ensures r == s[..|r|]
  {
    if |s| <= n then s else s[..n]
  }

  // ---------------------------------------------------------------------------
  // Lexicographic order on code units
  // ---------------------------------------------------------------------------

  /** `a < b` on strings, character by character, a proper prefix being smaller. */
  predicate LexLess(a: string, b: string)
  {
    if |a| == 0 then |b| > 0
    else if |b| == 0 then false
    else if a[0] != b[0] then a[0] < b[0]
    else LexLess(a[1..], b[1..])
  }

  predicate LexLe(a: string, b: string) { a == b || LexLess(a, b) }

  lemma {:induction false} LexIrreflexive(a: string)
    ensures !LexLess(a, a)
  {
    if |a| > 0 { LexIrreflexive(a[1..]); }
  }

  lemma {:induction false} LexTransitive(a: string, b: string, c: string)
    requires LexLess(a, b) && LexLess(b, c)
    ensures LexLess(a, c)
  {
    if |a| > 0 && a[0] == b[0] && b[0] == c[0] {
      LexTransitive(a[1..], b[1..], c[1..]);
    }
  }

  lemma {:induction false} LexTrichotomy(a: string, b: string)
    ensures LexLess(a, b) || a == b || LexLess(b, a)
  {
    if |a| > 0 && |b| > 0 && a[0] == b[0] {
      LexTrichotomy(a[1..], b[1..]);
      if a[1..] == b[1..] {
        assert a == [a[0]] + a[1..] && b == [b[0]] + b[1..];
      }
    }
  }

  lemma LexAsymmetric(a: string, b: string)
    requires LexLess(a, b)
    ensures !LexLess(b, a) && a != b
  {
    LexIrreflexive(a);
    if LexLess(b, a) { LexTransitive(a, b, a); }
  }

  lemma LexLeTransitive(a: string, b: string, c: string)
    requires LexLe(a, b) && LexLe(b, c)
    ensures LexLe(a, c)
  {
    if LexLess(a, b) && LexLess(b, c) { LexTransitive(a, b, c); }
  }

  /** Comparing two concatenations whose first parts have the same length compares the first parts, then the rest. */
  lemma {:induction false} LexConcat(a1: string, a2: string, b1: string, b2: string)
    requires |a1| == |b1|
    ensures LexLess(a1 + a2, b1 + b2) <==> LexLess(a1, b1) || (a1 == b1 && LexLess(a2, b2))
    decreases |a1|
  {
    if |a1| > 0 {
      assert (a1 + a2)[0] == a1[0] && (b1 + b2)[0] == b1[0];
      assert (a1 + a2)[1..] == a1[1..] + a2 && (b1 + b2)[1..] == b1[1..] + b2;
      LexConcat(a1[1..], a2, b1[1..], b2);
      if a1[0] == b1[0] && a1[1..] == b1[1..] {
        assert a1 == [a1[0]] + a1[1..] && b1 == [b1[0]] + b1[1..];
      }
    } else {
      assert a1 + a2 == a2 && b1 + b2 == b2;
    }
  }

  /** Fixed-width decimal strings compare as the numbers they denote. */
  lemma {:induction false} FixedDigitsOrder(n: nat, m: nat, w: nat)
    requires n < Pow10(w) && m < Pow10(w)
    ensures LexLess(FixedDigits(n, w), FixedDigits(m, w)) <==> n < m
    ensures FixedDigits(n, w) == FixedDigits(m, w) <==> n == m
  {
    if w > 0 {
      FixedDigitsOrder(n / 10, m / 10, w - 1);
      var x, y := FixedDigits(n / 10, w - 1), FixedDigits(m / 10, w - 1);
      var c, d := DigitChar(n % 10), DigitChar(m % 10);
      LexConcat(x, [c], y, [d]);
      assert LexLess([c], [d]) <==> c < d;
      if x + [c] == y + [d] {
        assert x == (x + [c])[..w - 1] && y == (y + [d])[..w - 1];
        assert c == (x + [c])[w - 1] && d == (y + [d])[w - 1];
      }
    } else {
      assert n == 0 && m == 0;
    }
  }
}
