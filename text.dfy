/** The few operations on Python `str` values that the scripts and the dashboard
    rely on: `strip()`, `lower()`, the `in` substring test, the comparison that
    `sorted()` uses on file names, and decimal formatting of integers. */
module Text {

  /** Python's `str.isspace()` restricted to ASCII: tab, line feed, vertical
      tab, form feed, carriage return, the four separators 0x1C-0x1F, space. */
  predicate IsSpace(c: char) {
    9 <= c as int <= 13 || 28 <= c as int <= 32
  }

  /** Number of leading whitespace characters. */
  function LeadingSpaces(s: string): (k: nat)
    ensures k <= |s|
    ensures forall i :: 0 <= i < k ==> IsSpace(s[i])
    ensures k < |s| ==> !IsSpace(s[k])
  {
    if s == [] || !IsSpace(s[0]) then 0 else 1 + LeadingSpaces(s[1..])
  }

  /** Number of trailing whitespace characters. */
  function TrailingSpaces(s: string): (k: nat)
    ensures k <= |s|
    ensures forall i :: |s| - k <= i < |s| ==> IsSpace(s[i])
    ensures k < |s| ==> !IsSpace(s[|s| - 1 - k])
  {
    if s == [] || !IsSpace(s[|s| - 1]) then 0 else 1 + TrailingSpaces(s[..|s| - 1])
  }

  /** `s.strip()`: the slice of `s` left after removing whitespace at both ends. */
  function Strip(s: string): (r: string)
    ensures r == [] <==> forall i :: 0 <= i < |s| ==> IsSpace(s[i])
    ensures r != [] ==> !IsSpace(r[0]) && !IsSpace(r[|r| - 1])
    ensures exists i ::
      (OccursAt(s, r, i)
       && (forall k :: 0 <= k < i ==> IsSpace(s[k]))
       && (forall k :: i + |r| <= k < |s| ==> IsSpace(s[k])))
  {
    var a := LeadingSpaces(s);
    if a == |s| then
      assert OccursAt(s, [], 0);
      []
    else
      var b := |s| - TrailingSpaces(s);
      assert OccursAt(s, s[a..b], a);
      s[a..b]
  }

  /** Python's `str.lower()` on one character, restricted to ASCII letters. */
  function LowerChar(c: char): char {
    if 'A' <= c <= 'Z' then (c as int - 'A' as int + 'a' as int) as char else c
  }

  /** `s.lower()`, character by character. */
  function Lower(s: string): (r: string)
    ensures |r| == |s|
    ensures forall i :: 0 <= i < |s| ==> r[i] == LowerChar(s[i])
  {
    if s == [] then [] else [LowerChar(s[0])] + Lower(s[1..])
  }

  /** Lower-casing twice is lower-casing once, so a lower-cased query compared
      with a lower-cased name is a case-insensitive comparison. */
  lemma LowerIdempotent(s: string)
    ensures Lower(Lower(s)) == Lower(s)
  {
    assert forall i :: 0 <= i < |s| ==> LowerChar(LowerChar(s[i])) == LowerChar(s[i]);
  }

  /** `sub` is the slice of `s` that starts at index `i`. */
  predicate OccursAt(s: string, sub: string, i: int) {
    0 <= i <= |s| - |sub| && s[i..i + |sub|] == sub
  }

  /** Python's `sub in s`: `sub` occurs as a contiguous slice of `s`. The
      empty string occurs in every string, a longer one in none, and one of
      the same length only in itself. */
  predicate Contains(s: string, sub: string): (r: bool)
    ensures sub == [] ==> r
    ensures r ==> |sub| <= |s|
    ensures |sub| == |s| ==> (r <==> sub == s)
  {
    assert sub == [] ==> OccursAt(s, sub, 0);
    assert |sub| == |s| ==> (OccursAt(s, sub, 0) <==> sub == s);
    exists i :: 0 <= i <= |s| - |sub| && OccursAt(s, sub, i)
  }

  // ---------------------------------------------------------------------------
  // Lexicographic order, as Python compares strings (code point by code point).
  // Dafny's own `<` on sequences means "proper prefix", so the order is spelled out.

  /** `a` and `b` agree before index `k`, where `a` has the smaller character. */
  predicate DiffersFirstAt(a: string, b: string, k: int) {
    0 <= k < |a| && k < |b| && a[..k] == b[..k] && a[k] < b[k]
  }

  /** `a < b` on Python strings: at the first index where they differ `a` has
      the smaller code point, or `a` is a proper prefix of `b`. */
  predicate LexLess(a: string, b: string): (r: bool)
    ensures r <==> (|a| < |b| && a == b[..|a|]) || exists k :: DiffersFirstAt(a, b, k)
  {
    if |a| == 0 then |b| > 0
    else if |b| == 0 then
      assert forall k :: !DiffersFirstAt(a, b, k);
      false
    else if a[0] != b[0] then
      assert a[0] < b[0] ==> DiffersFirstAt(a, b, 0);
      assert forall k :: DiffersFirstAt(a, b, k) ==> k == 0;
      a[0] < b[0]
    else
      var r := LexLess(a[1..], b[1..]);
      assert (|a| < |b| && a == b[..|a|]) <==> (|a[1..]| < |b[1..]| && a[1..] == b[1..][..|a[1..]|]) by {
        if |a| < |b| && a[1..] == b[1..][..|a[1..]|] {
          assert a == [a[0]] + a[1..] && b[..|a|] == [b[0]] + b[1..][..|a[1..]|];
        }
      }
      assert (exists k :: DiffersFirstAt(a, b, k)) <==> (exists k :: DiffersFirstAt(a[1..], b[1..], k)) by {
        forall k | DiffersFirstAt(a, b, k) ensures DiffersFirstAt(a[1..], b[1..], k - 1) {
          assert k != 0;
          assert a[1..][..k - 1] == a[..k][1..] && b[1..][..k - 1] == b[..k][1..];
        }
        forall k | DiffersFirstAt(a[1..], b[1..], k) ensures DiffersFirstAt(a, b, k + 1) {
          assert a[..k + 1] == [a[0]] + a[1..][..k] && b[..k + 1] == [b[0]] + b[1..][..k];
        }
      }
      r
  }

  lemma {:induction false} LexIrreflexive(a: string)
    ensures !LexLess(a, a)
  {
    if |a| > 0 { LexIrreflexive(a[1..]); }
  }

  lemma {:induction false} LexAsymmetric(a: string, b: string)
    requires LexLess(a, b)
    ensures !LexLess(b, a)
  {
    if |a| > 0 && |b| > 0 && a[0] == b[0] { LexAsymmetric(a[1..], b[1..]); }
  }

  lemma {:induction false} LexTransitive(a: string, b: string, c: string)
    requires LexLess(a, b) && LexLess(b, c)
    ensures LexLess(a, c)
  {
    if |a| > 0 && a[0] == b[0] && b[0] == c[0] {
      LexTransitive(a[1..], b[1..], c[1..]);
    }
  }

  lemma {:induction false} LexTotal(a: string, b: string)
    ensures a == b || LexLess(a, b) || LexLess(b, a)
  {
    if |a| > 0 && |b| > 0 && a[0] == b[0] {
      LexTotal(a[1..], b[1..]);
      if a[1..] == b[1..] {
        assert a == [a[0]] + a[1..] && b == [b[0]] + b[1..];
      }
    }
  }

  /** Comparing two strings that share a prefix compares what follows it. */
  lemma {:induction false} LexCommonPrefix(p: string, a: string, b: string)
    ensures LexLess(p + a, p + b) <==> LexLess(a, b)
  {
    if |p| == 0 {
      assert p + a == a && p + b == b;
    } else {
      assert (p + a)[1..] == p[1..] + a && (p + b)[1..] == p[1..] + b;
      LexCommonPrefix(p[1..], a, b);
    }
  }

  /** Two strings made of blocks of equal length compare block by block. */
  lemma {:induction false} LexBlocks(a: string, x: string, b: string, y: string)
    requires |a| == |b|
    ensures LexLess(a + x, b + y) <==> LexLess(a, b) || (a == b && LexLess(x, y))
  {
    if |a| == 0 {
      assert a + x == x && b + y == y;
    } else {
      assert (a + x)[0] == a[0] && (b + y)[0] == b[0];
      assert (a + x)[1..] == a[1..] + x && (b + y)[1..] == b[1..] + y;
      LexBlocks(a[1..], x, b[1..], y);
      if a[0] == b[0] {
        assert a == b <==> a[1..] == b[1..] by {
          assert a == [a[0]] + a[1..] && b == [b[0]] + b[1..];
        }
      } else {
        assert a != b;
      }
    }
  }

  // ---------------------------------------------------------------------------
  // Decimal digits.

  function Pow10(w: nat): (p: nat)
    ensures p >= 1
  {
    if w == 0 then 1 else 10 * Pow10(w - 1)
  }

  function DigitChar(d: nat): (c: char)
    requires d < 10
    ensures '0' <= c <= '9'
  {
    ('0' as int + d) as char
  }

  predicate AllDigits(s: string) {
    forall i :: 0 <= i < |s| ==> '0' <= s[i] <= '9'
  }

  /** The number a string of decimal digits spells, most significant first. */
  function DigitsValue(s: string): nat
    requires AllDigits(s)
  {
    if s == [] then 0 else DigitsValue(s[..|s| - 1]) * 10 + (s[|s| - 1] as int - '0' as int)
  }

  /** The digits of `a` followed by those of `b` spell `a`'s number shifted
      left by `|b|` places plus `b`'s number. */
  lemma {:induction false} DigitsConcat(a: string, b: string)
    requires AllDigits(a) && AllDigits(b)
    ensures AllDigits(a + b)
    ensures DigitsValue(a + b) == DigitsValue(a) * Pow10(|b|) + DigitsValue(b)
  {
    if b == [] {
      assert a + b == a;
    } else {
      var init := b[..|b| - 1];
      DigitsConcat(a, init);
      assert (a + b)[..|a + b| - 1] == a + init;
      assert (a + b)[|a + b| - 1] == b[|b| - 1];
      ShiftStep(DigitsValue(a + b), DigitsValue(a + init), DigitsValue(b), Pow10(|b|),
                DigitsValue(a), DigitsValue(init), Pow10(|init|), b[|b| - 1] as int - '0' as int);
    }
  }

  /** The arithmetic of one step of `DigitsConcat`. */
  lemma ShiftStep(total: int, left: int, vb: int, pb: int, va: int, vi: int, p: int, c: int)
    requires total == left * 10 + c && left == va * p + vi
    requires vb == vi * 10 + c && pb == 10 * p
    ensures total == va * pb + vb
  {
  }

  /** Splitting off the last decimal digit: the digits of `n / 10` below
      `p`, shifted one place, plus the last digit, are `n` modulo `10 * p`. */
  lemma ShiftMod(n: nat, p: nat)
    requires p >= 1
    ensures (n / 10) % p * 10 + n % 10 == n % (10 * p)
  {
    var q, a, b := n / 10, n / 10 / p, n / 10 % p;
    assert n == 10 * q + n % 10;
    assert q == p * a + b;
    assert n == (10 * p) * a + (10 * b + n % 10);
    ModUnique(n, 10 * p, a, 10 * b + n % 10);
  }

  /** Euclidean division is unique. */
  lemma ModUnique(n: int, m: int, a: int, b: int)
    requires m > 0 && n == m * a + b && 0 <= b < m
    ensures n % m == b
  {
    var q := n / m;
    assert n == m * q + n % m;
    assert m * (a - q) == n % m - b;
    if a - q >= 1 {
      MulAtLeast(m, a - q);
      assert false;
    } else if a - q <= -1 {
      MulAtLeast(m, q - a);
      assert false;
    }
  }

  lemma MulAtLeast(m: int, d: int)
    requires m > 0 && d >= 1
    ensures m * d >= m
  {
    assert m * d == m + m * (d - 1);
  }

  /** The last `w` decimal digits of `n`, zero-padded to width `w` (as
      `strftime` writes `%m` and `%d`). */
  function Padded(n: nat, w: nat): (s: string)
    ensures |s| == w
    ensures AllDigits(s) && DigitsValue(s) == n % Pow10(w)
  {
    if w == 0 then []
    else
      var high := Padded(n / 10, w - 1);
      var s := high + [DigitChar(n % 10)];
      assert s[..|s| - 1] == high;
      ShiftMod(n, Pow10(w - 1));
      s
  }

  /** `str(n)` for a non-negative integer: the decimal digits of `n`, with no
      leading zero. */
  function Decimal(n: nat): (s: string)
    ensures 1 <= |s|
    ensures AllDigits(s) && DigitsValue(s) == n
    ensures |s| > 1 ==> s[0] != '0'
  {
    if n < 10 then
      assert [DigitChar(n)][..0] == [];
      [DigitChar(n)]
    else
      var high := Decimal(n / 10);
      var s := high + [DigitChar(n % 10)];
      assert s[..|s| - 1] == high && s[0] == high[0];
      assert |high| == 1 ==> high[..0] == [];
      s
  }

  lemma DivBound(n: nat, w: nat)
    requires w > 0 && n < Pow10(w)
    ensures n / 10 < Pow10(w - 1)
  {
  }

  /** For numbers that fit the width, zero-padded strings compare like the
      numbers they write, and different numbers give different strings. */
  lemma {:induction false} PaddedOrder(n: nat, m: nat, w: nat)
    requires n < Pow10(w) && m < Pow10(w)
    ensures LexLess(Padded(n, w), Padded(m, w)) <==> n < m
    ensures Padded(n, w) == Padded(m, w) <==> n == m
  {
    if w == 0 {
      LexIrreflexive([]);
    } else {
      DivBound(n, w);
      DivBound(m, w);
      PaddedOrder(n / 10, m / 10, w - 1);
      var pn, pm := Padded(n / 10, w - 1), Padded(m / 10, w - 1);
      var cn, cm := [DigitChar(n % 10)], [DigitChar(m % 10)];
      LexBlocks(pn, cn, pm, cm);
      assert LexLess(cn, cm) <==> n % 10 < m % 10;
      assert pn + cn == pm + cm <==> pn == pm && cn == cm by {
        if pn + cn == pm + cm {
          assert (pn + cn)[..w - 1] == pn && (pm + cm)[..w - 1] == pm;
          assert (pn + cn)[w - 1] == cn[0] && (pm + cm)[w - 1] == cm[0];
        }
      }
      assert n == 10 * (n / 10) + n % 10 && m == 10 * (m / 10) + m % 10;
    }
  }

  /** A number with exactly `w` digits is written by `str` as its zero-padded
      form of width `w`. */
  lemma {:induction false} DecimalIsPadded(n: nat, w: nat)
    requires w >= 1 && Pow10(w - 1) <= n < Pow10(w)
    ensures Decimal(n) == Padded(n, w)
  {
    if w == 1 {
      assert Padded(n / 10, 0) == [];
    } else {
      DivBound(n, w);
      DecimalIsPadded(n / 10, w - 1);
    }
  }
}
