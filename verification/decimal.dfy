/**
  Decimal digit strings and the natural numbers they denote. Digits are
  read most significant first, as a base-unit token amount is written.
 */
module Decimal {

  predicate IsDigit(c: char) {
    '0' <= c <= '9'
  }

  predicate IsDigits(s: string) {
    forall i :: 0 <= i < |s| ==> IsDigit(s[i])
  }

  function DigitValue(c: char): (d: nat)
    requires IsDigit(c)
    ensures d < 10
  {
    (c - '0') as nat
  }

  function DigitChar(d: nat): (c: char)
    requires d < 10
    ensures IsDigit(c)
    ensures DigitValue(c) == d
  {
    ('0' as int + d) as char
  }

  function Pow10(k: nat): (p: nat)
    ensures p >= 1
  {
    if k == 0 then 1 else 10 * Pow10(k - 1)
  }

  /** `k` copies of the character `'0'`. */
  function Zeros(k: nat): (z: string)
    ensures |z| == k
    ensures forall i :: 0 <= i < k ==> z[i] == '0'
  {
    seq(k, _ => '0')
  }

  /** The number a digit string denotes; the empty string denotes 0. */
  function ValueOf(s: string): nat
    requires IsDigits(s)
  {
    if |s| == 0 then 0 else ValueOf(s[..|s| - 1]) * 10 + DigitValue(s[|s| - 1])
  }

  /** The usual rendering of `n`: no leading zero, and "0" for zero. */
  function DecimalString(n: nat): (s: string)
    ensures |s| >= 1
  {
    if n < 10 then [DigitChar(n)] else DecimalString(n / 10) + [DigitChar(n % 10)]
  }

  /** `n` written in exactly `w` digits, least significant `w` digits kept. */
  function FixedWidth(n: nat, w: nat): (s: string)
    ensures |s| == w
  {
    if w == 0 then [] else FixedWidth(n / 10, w - 1) + [DigitChar(n % 10)]
  }

  /** The form `DecimalString` produces: digits only, and a leading '0'
      only in the one-character string "0". */
  predicate IsCanonical(s: string) {
    |s| >= 1 && IsDigits(s) && (s[0] == '0' ==> |s| == 1)
  }

  lemma Pow10Monotone(j: nat, k: nat)
    requires j <= k
    ensures Pow10(j) <= Pow10(k)
  {
  }

  lemma {:induction false} Pow10Add(j: nat, k: nat)
    ensures Pow10(j + k) == Pow10(j) * Pow10(k)
  {
    if k > 0 {
      Pow10Add(j, k - 1);
      assert Pow10(j + k) == 10 * Pow10(j + k - 1);
    }
  }

  /** Reading a concatenation: the left part is shifted by the width of
      the right part. */
  lemma {:induction false} ValueOfAppend(p: string, q: string)
    requires IsDigits(p) && IsDigits(q)
    ensures IsDigits(p + q)
    ensures ValueOf(p + q) == ValueOf(p) * Pow10(|q|) + ValueOf(q)
  {
    var pq := p + q;
    assert IsDigits(pq) by {
      forall i | 0 <= i < |pq| ensures IsDigit(pq[i]) {
        if i < |p| { assert pq[i] == p[i]; } else { assert pq[i] == q[i - |p|]; }
      }
    }
    if |q| == 0 {
      assert pq == p;
    } else {
      var q' := q[..|q| - 1];
      assert pq[..|pq| - 1] == p + q';
      ValueOfAppend(p, q');
      assert ValueOf(pq) == ValueOf(p + q') * 10 + DigitValue(q[|q| - 1]);
      assert ValueOf(q) == ValueOf(q') * 10 + DigitValue(q[|q| - 1]);
      assert Pow10(|q|) == Pow10(|q'|) * 10;
      ShiftStep(ValueOf(p), Pow10(|q'|), ValueOf(q'), DigitValue(q[|q| - 1]));
    }
  }

  /** One more digit appended to `a` shifted by `p` and followed by `b`. */
  lemma ShiftStep(a: int, p: int, b: int, d: int)
    ensures (a * p + b) * 10 + d == a * (p * 10) + (b * 10 + d)
  {
  }

  /** A larger factor gains at least one more multiple of `m`. */
  lemma MulStrictStep(a: int, b: int, m: nat)
    requires a < b
    ensures a * m + m <= b * m
  {
    var c := b - a;
    assert b * m == a * m + c * m;
    MulAtLeast(c, m);
  }

  lemma {:induction false} MulAtLeast(c: nat, m: nat)
    requires c >= 1
    ensures c * m >= m
  {
  }

  /** A string of `w` digits denotes a number below `10^w`. */
  lemma {:induction false} ValueOfBound(s: string)
    requires IsDigits(s)
    ensures ValueOf(s) < Pow10(|s|)
  {
    if |s| > 0 {
      ValueOfBound(s[..|s| - 1]);
    }
  }

  lemma {:induction false} ValueOfZeros(k: nat)
    ensures IsDigits(Zeros(k))
    ensures ValueOf(Zeros(k)) == 0
  {
    if k > 0 {
      assert Zeros(k)[..k - 1] == Zeros(k - 1);
      ValueOfZeros(k - 1);
    }
  }

  /** Leading zeros do not change the value. */
  lemma ValueOfPadded(k: nat, s: string)
    requires IsDigits(s)
    ensures IsDigits(Zeros(k) + s)
    ensures ValueOf(Zeros(k) + s) == ValueOf(s)
  {
    ValueOfZeros(k);
    ValueOfAppend(Zeros(k), s);
  }

  /** A digit string whose first digit is not '0' denotes at least
      `10^(|s| - 1)`. */
  lemma {:induction false} ValueOfLeadingDigit(s: string)
    requires IsDigits(s) && |s| >= 1 && s[0] != '0'
    ensures ValueOf(s) >= Pow10(|s| - 1)
  {
    if |s| > 1 {
      ValueOfLeadingDigit(s[..|s| - 1]);
    }
  }

  /** Euclidean division is determined by quotient and remainder. */
  lemma DivModUnique(n: nat, m: nat, q: nat, r: nat)
    requires m > 0 && r < m && n == q * m + r
    ensures n / m == q && n % m == r
  {
    var q', r' := n / m, n % m;
    assert n == q' * m + r';
    if q' < q {
      MulStrictStep(q', q, m);
    } else if q < q' {
      MulStrictStep(q, q', m);
    }
  }

  /** A string of `w` digits is the `w`-digit rendering of its value. */
  lemma {:induction false} FixedWidthUnique(s: string)
    requires IsDigits(s)
    ensures FixedWidth(ValueOf(s), |s|) == s
  {
    if |s| > 0 {
      var init, d := s[..|s| - 1], DigitValue(s[|s| - 1]);
      FixedWidthUnique(init);
      DivModUnique(ValueOf(s), 10, ValueOf(init), d);
      assert DigitChar(d) == s[|s| - 1];
      assert s == init + [s[|s| - 1]];
    }
  }

  /** `FixedWidth` renders its argument modulo `10^w` faithfully. */
  lemma {:induction false} FixedWidthValue(n: nat, w: nat)
    ensures IsDigits(FixedWidth(n, w))
    ensures ValueOf(FixedWidth(n, w)) == n % Pow10(w)
  {
    var s := FixedWidth(n, w);
    if w > 0 {
      FixedWidthValue(n / 10, w - 1);
      var init := FixedWidth(n / 10, w - 1);
      assert s[..w - 1] == init;
      assert IsDigits(s) by {
        forall i | 0 <= i < w ensures IsDigit(s[i]) {
          if i < w - 1 { assert s[i] == init[i]; }
        }
      }
      ModStep(n, w - 1);
    }
  }

  /** `(n / 10) mod 10^k`, shifted back and completed by the last digit,
      is `n mod 10^(k + 1)`. */
  lemma ModStep(n: nat, k: nat)
    ensures ((n / 10) % Pow10(k)) * 10 + n % 10 == n % Pow10(k + 1)
  {
    var m := Pow10(k);
    var a, b := (n / 10) / m, (n / 10) % m;
    assert n / 10 == a * m + b;
    assert n == (a * m + b) * 10 + n % 10;
    assert n == a * (m * 10) + (b * 10 + n % 10);
    assert b * 10 + n % 10 < m * 10;
    DivModUnique(n, m * 10, a, b * 10 + n % 10);
  }

  /** `DecimalString` produces canonical strings denoting its argument. */
  lemma {:induction false} DecimalStringSound(n: nat)
    ensures IsCanonical(DecimalString(n))
    ensures ValueOf(DecimalString(n)) == n
  {
    var s := DecimalString(n);
    if n >= 10 {
      DecimalStringSound(n / 10);
      var init := DecimalString(n / 10);
      assert s[..|s| - 1] == init;
      assert s[0] == init[0];
      assert IsDigits(s) by {
        forall i | 0 <= i < |s| ensures IsDigit(s[i]) {
          if i < |s| - 1 { assert s[i] == init[i]; }
        }
      }
    }
  }

  /** Every canonical string is the rendering of the number it denotes:
      together with `DecimalStringSound`, `DecimalString` and `ValueOf`
      are inverse bijections between naturals and canonical strings. */
  lemma {:induction false} DecimalStringComplete(s: string)
    requires IsCanonical(s)
    ensures DecimalString(ValueOf(s)) == s
  {
    if |s| > 1 {
      var init, d := s[..|s| - 1], DigitValue(s[|s| - 1]);
      assert init[0] == s[0];
      DecimalStringComplete(init);
      ValueOfLeadingDigit(init);
      DivModUnique(ValueOf(s), 10, ValueOf(init), d);
      assert DigitChar(d) == s[|s| - 1];
      assert s == init + [s[|s| - 1]];
    } else {
      assert DigitChar(DigitValue(s[0])) == s[0];
    }
  }
}
