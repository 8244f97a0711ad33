/**
  The client's rendering of a token balance. The staking contract reports
  a balance as a decimal string of base units; the client shows it as a
  fixed-point number with 18 fractional digits by moving a '.' into the
  string, never by arithmetic.
 */
module BalanceFormat {
  import opened JsString
  import opened Decimal

  /** Fractional digits of every token the client lists. */
  const Decimals: nat := 18

  /** Base units per whole token: 10 to the power `Decimals`. */
  const Unit: nat := 1_000_000_000_000_000_000

  lemma UnitIsPow10()
    ensures Unit == Pow10(Decimals)
  {
    Pow10Add(9, 9);
    assert Pow10(9) == 1_000_000_000;
  }

  /** Zero with all its fractional digits: the source of the left padding
      for balances of at most 18 characters. */
  const ZeroTemplate: string := "0.000000000000000000"

  /** `s` left-padded with '0' to at least `w` characters. */
  function PadLeft(s: string, w: nat): (p: string)
    ensures |p| == if |s| < w then w else |s|
  {
    if |s| < w then Zeros(w - |s|) + s else s
  }

  /** `r` with the character at index `i` deleted. */
  function DeleteAt(r: string, i: nat): (d: string)
    requires i < |r|
    ensures |d| == |r| - 1
  {
    r[..i] + r[i + 1..]
  }

  /** The first `k + 2` characters of the template are "0." and `k` zeros. */
  lemma ZeroTemplatePrefix(k: nat)
    requires k <= Decimals
    ensures Substring(ZeroTemplate, 0, k + 2) == "0." + Zeros(k)
  {
  }

  /** The balance string as the client displays it: when it has more than
      18 characters a '.' goes before the last 18; otherwise it is
      prefixed by "0." and as many zeros as bring its fraction to 18
      digits. Either way the '.' has exactly 18 characters after it, and
      deleting it gives back the input, padded with leading zeros to 19
      characters when shorter. */
  function FormatBalance(balance: string): (r: string)
    ensures |r| == if |balance| + 1 < 20 then 20 else |balance| + 1
    ensures r[|r| - 19] == '.'
    ensures DeleteAt(r, |r| - 19) == PadLeft(balance, 19)
    ensures multiset(r)['.'] == multiset(balance)['.'] + 1
  {
    if |balance| > 18 then
      var r := Substring(balance, 0, |balance| - Decimals) + "." + SubstrFrom(balance, |balance| - Decimals);
      assert r[..|balance| - 18] + r[|balance| - 17..] == balance;
      assert multiset(r) == multiset(balance[..|balance| - 18]) + multiset{'.'} + multiset(balance[|balance| - 18..]) by {
        assert r == balance[..|balance| - 18] + ['.'] + balance[|balance| - 18..];
      }
      assert balance == balance[..|balance| - 18] + balance[|balance| - 18..];
      r
    else
      ZeroTemplatePrefix(Decimals - |balance|);
      var r := Substring(ZeroTemplate, 0, Decimals + 2 - |balance|) + balance;
      var z := Zeros(Decimals - |balance|);
      assert r == ['0', '.'] + z + balance;
      assert r[..1] + r[2..] == Zeros(19 - |balance|) + balance;
      assert '.' !in multiset(z);
      assert multiset(r) == multiset{'0', '.'} + multiset(z) + multiset(balance);
      r
  }

  /** Above 18 characters: everything but the last 18, the '.', then
      exactly the last 18 characters. */
  lemma FormatLong(s: string)
    requires |s| > 18
    ensures FormatBalance(s) == s[..|s| - 18] + "." + s[|s| - 18..]
  {
  }

  /** Up to 18 characters: "0.", then `18 - |s|` zeros, then `s` unchanged. */
  lemma FormatShort(s: string)
    requires |s| <= 18
    ensures FormatBalance(s) == "0." + Zeros(18 - |s|) + s
  {
  }

  /** The two sides of the branch: 18 characters get "0." in front, 19
      characters get the '.' after their first character. */
  lemma FormatBoundary(s: string)
    requires |s| == 18 || |s| == 19
    ensures |s| == 18 ==> FormatBalance(s) == "0." + s
    ensures |s| == 19 ==> FormatBalance(s) == [s[0]] + "." + s[1..]
  {
    if |s| == 18 {
      FormatShort(s);
      assert Zeros(0) == [];
    } else {
      FormatLong(s);
      assert s[..1] == [s[0]];
    }
  }

  /** For an input without a '.', the output has exactly one '.', and
      exactly 18 characters follow it. */
  lemma FormatSingleDot(s: string, i: nat)
    requires '.' !in s
    requires i < |FormatBalance(s)|
    ensures FormatBalance(s)[i] == '.' <==> i == |FormatBalance(s)| - 19
  {
    var r := FormatBalance(s);
    var k := |r| - 19;
    if i < k {
      assert r[i] == DeleteAt(r, k)[i];
    } else if i > k {
      assert r[i] == DeleteAt(r, k)[i - 1];
    }
    var p := PadLeft(s, 19);
    if |s| < 19 {
      assert forall j :: 0 <= j < |p| - |s| ==> p[j] == '0';
      assert forall j :: |p| - |s| <= j < |p| ==> p[j] == s[j - (|p| - |s|)];
    }
  }

  /** The characters before the '.' of a formatted balance. */
  function IntegerPart(r: string): (p: string)
    requires |r| >= 19
    ensures |p| == |r| - 19
  {
    r[..|r| - 19]
  }

  /** The characters after the '.' of a formatted balance. */
  function FractionPart(r: string): (f: string)
    requires |r| >= 19
    ensures |f| == 18
  {
    r[|r| - 18..]
  }

  /** A digit string cut 18 characters from its end: the head denotes
      the quotient by 10^18, the tail the remainder. */
  lemma {:induction false} SplitValue(ip: string, fp: string)
    requires IsDigits(ip + fp) && |fp| == 18
    ensures IsDigits(ip) && IsDigits(fp)
    ensures ValueOf(ip) == ValueOf(ip + fp) / Unit
    ensures ValueOf(fp) == ValueOf(ip + fp) % Unit
  {
    var whole := ip + fp;
    assert IsDigits(ip) by {
      forall j | 0 <= j < |ip| ensures IsDigit(ip[j]) { assert ip[j] == whole[j]; }
    }
    assert IsDigits(fp) by {
      forall j | 0 <= j < |fp| ensures IsDigit(fp[j]) { assert fp[j] == whole[|ip| + j]; }
    }
    ValueOfAppend(ip, fp);
    ValueOfBound(fp);
    UnitIsPow10();
    DivModUnique(ValueOf(whole), Unit, ValueOf(ip), ValueOf(fp));
  }

  /** For a digit string denoting `n`, the integer part of the display
      denotes `n / 10^18` and its 18 fractional digits denote
      `n mod 10^18`: the display is `n` base units read as whole tokens. */
  lemma FormatValue(s: string)
    requires IsDigits(s)
    ensures var r := FormatBalance(s);
      && IsDigits(IntegerPart(r)) && IsDigits(FractionPart(r))
      && ValueOf(IntegerPart(r)) == ValueOf(s) / Unit
      && ValueOf(FractionPart(r)) == ValueOf(s) % Unit
      && ValueOf(IntegerPart(r)) * Unit + ValueOf(FractionPart(r)) == ValueOf(s)
  {
    var r := FormatBalance(s);
    var ip, fp := IntegerPart(r), FractionPart(r);
    var padded := PadLeft(s, 19);
    assert DeleteAt(r, |r| - 19) == ip + fp;
    if |s| < 19 {
      ValueOfPadded(19 - |s|, s);
    }
    assert IsDigits(padded) && ValueOf(padded) == ValueOf(s);
    SplitValue(ip, fp);
  }

  /** The display of a canonical balance splits into the rendering of the
      whole tokens, a '.', and the remainder in 18 digits. */
  lemma FormatCanonicalString(s: string)
    requires IsCanonical(s)
    ensures FormatBalance(s)
      == DecimalString(ValueOf(s) / Unit) + "." + FixedWidth(ValueOf(s) % Unit, Decimals)
  {
    var r := FormatBalance(s);
    FormatValue(s);
    var ip, fp := IntegerPart(r), FractionPart(r);
    DotSplit(r);
    FractionRendering(fp, ValueOf(s) % Unit);
    if |s| > 18 {
      CanonicalHead(s, ip);
    } else {
      ShortIntegerPart(s);
      ShortQuotient(s);
    }
  }

  /** A string with a '.' 19 characters from its end is its integer part,
      the '.', and its fraction part. */
  lemma DotSplit(r: string)
    requires |r| >= 19 && r[|r| - 19] == '.'
    ensures r == IntegerPart(r) + "." + FractionPart(r)
  {
  }

  /** The 18 fractional digits are the 18-digit rendering of their value. */
  lemma FractionRendering(fp: string, v: nat)
    requires IsDigits(fp) && |fp| == Decimals && ValueOf(fp) == v
    ensures FixedWidth(v, Decimals) == fp
  {
    FixedWidthUnique(fp);
  }

  /** Above 18 characters the integer part keeps the canonical leading digit. */
  lemma CanonicalHead(s: string, ip: string)
    requires IsCanonical(s) && |s| > 18
    requires ip == IntegerPart(FormatBalance(s)) && IsDigits(ip)
    ensures DecimalString(ValueOf(ip)) == ip
  {
    FormatLong(s);
    assert ip == s[..|s| - 18];
    assert ip[0] == s[0];
    DecimalStringComplete(ip);
  }

  /** Up to 18 characters the integer part is "0"... */
  lemma ShortIntegerPart(s: string)
    requires |s| <= 18
    ensures IntegerPart(FormatBalance(s)) == "0"
  {
  }

  /** ...which renders the quotient, zero, of a number of at most 18 digits. */
  lemma ShortQuotient(s: string)
    requires IsDigits(s) && |s| <= 18
    ensures DecimalString(ValueOf(s) / Unit) == "0"
  {
    ValueOfBound(s);
    QuotientZero(ValueOf(s), |s|);
    assert DecimalString(0) == "0";
  }

  /** A number of at most 18 digits is less than one whole token. */
  lemma QuotientZero(v: nat, w: nat)
    requires v < Pow10(w) && w <= Decimals
    ensures v / Unit == 0
  {
    UnitIsPow10();
    Pow10Monotone(w, Decimals);
  }

  /** On the contract's own rendering of a balance `n` (no leading
      zeros), the display is the usual rendering of the whole tokens,
      a '.', and the remainder in exactly 18 digits. */
  lemma FormatCanonical(n: nat)
    ensures FormatBalance(DecimalString(n))
      == DecimalString(n / Unit) + "." + FixedWidth(n % Unit, Decimals)
  {
    DecimalStringSound(n);
    FormatCanonicalString(DecimalString(n));
  }
}
