/**
 * The percent engine and the grid builder of `src/lib/bpm.ts`: the pitch
 * change between two BPMs as an exactly rounded fixed-point number, its
 * decimal renderings, and the 21 x 21 table of classified cells.
 */
module Bpm {
  import opened Wrappers
  import opened Strings

  /** `RANGE`: the table spans `bpmMin .. bpmMin + Range`. */
  const Range: nat := 20
  /** `bpms.length`. */
  const Size: nat := Range + 1

  datatype Selection = Selection(src: int, dest: int, labelText: string)

  datatype TableCell = TableCell(
    key: string,
    src: int,
    dest: int,
    valueText: string,
    valueTextSigned: string,
    labelText: string,
    className: string,
    selectable: bool)

  datatype TableRow = TableRow(src: int, cells: seq<TableCell>)

  datatype TableData = TableData(bpms: seq<int>, rows: seq<TableRow>, defaultSelection: Option<Selection>)

  datatype CalcResult = CalcResult(valueText: string, valueTextSigned: string, labelText: string)

  // ---------------------------------------------------------------------------
  // Percent engine
  // ---------------------------------------------------------------------------

  /** `absBigInt`. */
  function Abs(x: int): (r: int)
    ensures r >= 0 && (r == x || r == -x)
  {
    if x < 0 then -x else x
  }

  /** BigInt `a / b`: the quotient truncated toward zero. */
  function TruncDiv(a: int, b: int): (q: int)
    requires b != 0
    ensures a >= 0 && b > 0 ==> q >= 0
  {
    var q := Abs(a) / Abs(b);
    assert q >= 0 by {
      DivNonnegative(Abs(a), Abs(b));
    }
    if (a < 0) == (b < 0) then q else -q
  }

  lemma DivNonnegative(a: nat, b: int)
    requires b > 0
    ensures a / b >= 0
  {
    var q := a / b;
    assert a == q * b + a % b;
    if q < 0 {
      MulAtLeast(-q, b);
    }
  }

  /** BigInt `a % b`: what `TruncDiv` leaves over. */
  function TruncRem(a: int, b: int): (r: int)
    requires b != 0
    ensures a >= 0 && b > 0 ==> 0 <= r < b
  {
    var m := Abs(a) % Abs(b);
    if a < 0 then -m else m
  }

  /**
   * `TruncDiv` and `TruncRem` are BigInt's division: the dividend is the
   * quotient times the divisor plus the remainder, the remainder is smaller
   * than the divisor in magnitude and carries the sign of the dividend.
   */
  lemma TruncDivision(a: int, b: int)
    requires b != 0
    ensures a == TruncDiv(a, b) * b + TruncRem(a, b)
    ensures Abs(TruncRem(a, b)) < Abs(b)
    ensures TruncRem(a, b) == 0 || (TruncRem(a, b) < 0) == (a < 0)
  {
    var q, m := Abs(a) / Abs(b), Abs(a) % Abs(b);
    assert Abs(a) == q * Abs(b) + m;
    if b < 0 {
      assert q * Abs(b) == -(q * b);
    }
  }

  /**
   * The reference rounding of `num / den` for `den > 0`: to the nearest
   * integer, a tie going away from zero.
   */
  function RoundHalfAwayFromZero(num: int, den: int): int
    requires den > 0
  {
    var k := (2 * Abs(num) + den) / (2 * den);
    if num < 0 then -k else k
  }

  /** The reference rounding is within half a unit of `num / den`, and a tie lands farther from zero. */
  lemma RoundHalfAwayFromZeroIsNearest(num: int, den: int)
    requires den > 0
    ensures var r := RoundHalfAwayFromZero(num, den);
      && 2 * Abs(r * den - num) <= den
      && (2 * Abs(r * den - num) == den ==> Abs(r * den) > Abs(num))
      && (r < 0 ==> num < 0) && (num < 0 ==> r <= 0)
  {
    var n := Abs(num);
    var k := (2 * n + den) / (2 * den);
    NearestUnsigned(n, den);
    if num < 0 {
      NegateProduct(k, den);
    }
  }

  lemma NegateProduct(k: int, d: int)
    ensures (-k) * d == -(k * d)
  {
  }

  lemma NearestUnsigned(n: nat, den: int)
    requires den > 0
    ensures var k := (2 * n + den) / (2 * den);
      && k >= 0
      && 2 * Abs(k * den - n) <= den
      && (2 * Abs(k * den - n) == den ==> k * den > n)
  {
    var q, m := n / den, n % den;
    var k := (2 * n + den) / (2 * den);
    QuotientOfHalfUp(n, den);
    assert n == q * den + m;
    if 2 * m >= den {
      assert k == q + 1;
      assert k * den == q * den + den;
      assert k * den - n == den - m;
    } else {
      assert k == q;
      assert k * den - n == -m;
    }
  }

  /** `(2n + den) / (2 den)` is `n / den`, one more when the remainder is at least half of `den`. */
  lemma QuotientOfHalfUp(n: nat, den: int)
    requires den > 0
    ensures (2 * n + den) / (2 * den) == if 2 * (n % den) >= den then n / den + 1 else n / den
  {
    var q, m := n / den, n % den;
    var k := if 2 * m >= den then q + 1 else q;
    assert 2 * n + den == k * (2 * den) + (if 2 * m >= den then 2 * m - den else 2 * m + den);
    DivUnique(2 * n + den, 2 * den, k, if 2 * m >= den then 2 * m - den else 2 * m + den);
  }

  lemma DivUnique(x: int, d: int, k: int, rest: int)
    requires d > 0 && 0 <= rest < d && x == k * d + rest
    ensures x / d == k
  {
    var q, m := x / d, x % d;
    var t := q - k;
    assert t * d == rest - m by {
      assert q * d + m == k * d + rest;
      assert t * d == q * d - k * d;
    }
    if t >= 1 {
      MulAtLeast(t, d);
    } else if t <= -1 {
      MulAtLeast(-t, d);
    }
  }

  lemma MulAtLeast(t: int, d: int)
    requires t >= 1 && d > 0
    ensures t * d >= d
  {
    assert t * d == d + (t - 1) * d;
  }

  /**
   * `roundPercentScaled`: the percentage `(dest - src) * 100 / src`, scaled by
   * `10^decimals` and rounded half away from zero; 0 when `src` is 0.
   */
  function RoundPercentScaled(src: int, dest: int, decimals: nat): (r: int)
    ensures src == 0 ==> r == 0
    ensures src > 0 ==> r == RoundHalfAwayFromZero((dest - src) * 100 * Pow10(decimals), src)
  {
    var scale := Pow10(decimals);
    var num := (dest - src) * 100 * scale;
    var den := src;
    if den == 0 then 0
    else
      var quot := TruncDiv(num, den);
      var rem := TruncRem(num, den);
      var absRem := Abs(rem);
      var absDen := Abs(den);
      var r := if absRem * 2 >= absDen && rem != 0 then quot + (if num >= 0 then 1 else -1) else quot;
      assert den > 0 ==> r == RoundHalfAwayFromZero(num, den) by {
        if den > 0 {
          QuotientOfHalfUp(Abs(num), den);
        }
      }
      r
  }

  /** A BPM compared with itself is a change of exactly zero, at every precision. */
  lemma RoundPercentScaledSame(bpm: int, decimals: nat)
    ensures RoundPercentScaled(bpm, bpm, decimals) == 0
  {
    assert (bpm - bpm) * 100 * Pow10(decimals) == 0;
  }

  // ---------------------------------------------------------------------------
  // Fixed-point rendering
  // ---------------------------------------------------------------------------

  /**
   * `formatScaled`: the integer `scaled / 10^decimals` in decimal, a '-' in
   * front when negative, and, when `decimals > 0`, a '.' followed by the
   * fraction zero-padded to `decimals` digits.
   */
  function FormatScaled(scaled: int, decimals: nat): (s: string)
    ensures |s| >= 1 && (s[0] == '-') == (scaled < 0)
  {
    var negative := scaled < 0;
    var abs := if negative then -scaled else scaled;
    var factor := Pow10(decimals);
    var intPart := TruncDiv(abs, factor);
    var fracPart := TruncRem(abs, factor);
    (if negative then "-" else "") + FixedPoint(intPart, fracPart, decimals)
  }

  /** The unsigned template of `formatScaled`: `intPart`, then for `decimals > 0` a '.' and `fracPart` padded with '0'. */
  function FixedPoint(intPart: nat, fracPart: nat, decimals: nat): (s: string)
    ensures |s| >= 1 && IsDigit(s[0])
  {
    if decimals == 0 then NatToString(intPart)
    else NatToString(intPart) + "." + PadStart(NatToString(fracPart), decimals, '0')
  }

  /** `formatScaledWithSign`: `formatScaled` of the magnitude behind an explicit '+' or '-'. */
  function FormatScaledWithSign(scaled: int, decimals: nat): (s: string)
    ensures |s| >= 2 && s[0] == (if scaled < 0 then '-' else '+') && IsDigit(s[1])
  {
    var sign := if scaled < 0 then "-" else "+";
    var abs := if scaled < 0 then -scaled else scaled;
    sign + FormatScaled(abs, decimals)
  }

  /**
   * Reads a rendering back: an optional leading '+' or '-', then the digits
   * with the decimal point removed, taken as one integer.
   */
  function ParseScaled(t: string): int {
    if |t| > 0 && t[0] == '-' then -ParseNat(Remove(t[1..], '.'))
    else if |t| > 0 && t[0] == '+' then ParseNat(Remove(t[1..], '.'))
    else ParseNat(Remove(t, '.'))
  }

  lemma NoPointInDigits(s: string)
    requires AllDigits(s)
    ensures '.' !in s && '-' !in s && '+' !in s
  {
    assert forall k :: 0 <= k < |s| ==> s[k] != '.' && s[k] != '-' && s[k] != '+';
  }

  /** A fraction below `10^decimals`, padded, is exactly `decimals` digits and reads back as itself. */
  lemma PaddedFraction(fracPart: nat, decimals: nat)
    requires decimals > 0 && fracPart < Pow10(decimals)
    ensures var frac := PadStart(NatToString(fracPart), decimals, '0');
      |frac| == decimals && AllDigits(frac) && ParseNat(frac) == fracPart
  {
    var digits := NatToString(fracPart);
    NatToStringLength(fracPart, decimals);
    NatToStringDigits(fracPart);
    PadStartShape(digits, decimals, '0');
    var zeros := Repeat('0', decimals - |digits|);
    var frac := PadStart(digits, decimals, '0');
    assert frac == zeros + digits;
    ParseNatAppend(zeros, digits);
    ParseNatZeros(decimals - |digits|);
    NatToStringRoundTrip(fracPart);
    assert ParseNat(frac) == 0 * Pow10(|digits|) + fracPart;
  }

  /** Reading the template back with the point removed gives `intPart * 10^decimals + fracPart`. */
  lemma FixedPointValue(intPart: nat, fracPart: nat, decimals: nat)
    requires fracPart < Pow10(decimals)
    ensures ParseNat(Remove(FixedPoint(intPart, fracPart, decimals), '.')) == intPart * Pow10(decimals) + fracPart
  {
    var intDigits := NatToString(intPart);
    NatToStringDigits(intPart);
    NoPointInDigits(intDigits);
    NatToStringRoundTrip(intPart);
    if decimals > 0 {
      var frac := PadStart(NatToString(fracPart), decimals, '0');
      PaddedFraction(fracPart, decimals);
      NoPointInDigits(frac);
      RemoveBetween(intDigits, '.', frac);
      ParseNatAppend(intDigits, frac);
    } else {
      RemoveAbsent(intDigits, '.');
    }
  }

  /** A rendering `sign + digits` has no '.', and `sign + (digits + "." + frac)` has exactly one. */
  lemma RenderingPoints(t: string, sign: string, digits: string, frac: string, decimals: nat)
    requires sign == "" || sign == "-"
    requires AllDigits(digits) && AllDigits(frac)
    requires decimals == 0 ==> t == sign + digits
    requires decimals > 0 ==> t == sign + (digits + "." + frac)
    ensures multiset(t)['.'] == if decimals == 0 then 0 else 1
  {
    NoPointInDigits(digits);
    NoPointInDigits(frac);
    assert '.' !in multiset(sign);
    if decimals == 0 {
      assert multiset(t) == multiset(sign) + multiset(digits);
    } else {
      assert multiset(t) == multiset(sign) + multiset(digits) + multiset(".") + multiset(frac);
    }
  }

  /** In `sign + (digits + "." + frac)` the '.' is followed by the `|frac|` digits of `frac`. */
  lemma RenderingFraction(t: string, sign: string, digits: string, frac: string)
    requires t == sign + (digits + "." + frac)
    requires AllDigits(frac)
    ensures |t| >= |frac| + 1 + |digits|
    ensures t[|t| - |frac| - 1] == '.'
    ensures AllDigits(t[|t| - |frac|..])
  {
    assert t[|t| - |frac|..] == frac;
  }

  /** The parts `formatScaled` splits the magnitude into: the quotient and the remainder by `10^decimals`. */
  lemma MagnitudeParts(abs: nat, decimals: nat)
    ensures var factor := Pow10(decimals);
      && TruncDiv(abs, factor) >= 0
      && 0 <= TruncRem(abs, factor) < factor
      && abs == TruncDiv(abs, factor) * factor + TruncRem(abs, factor)
  {
    TruncDivision(abs, Pow10(decimals));
  }

  /** `formatScaled` writes no '.' when `decimals` is 0, and exactly one '.' otherwise. */
  lemma FormatScaledPoint(scaled: int, decimals: nat)
    ensures multiset(FormatScaled(scaled, decimals))['.'] == if decimals == 0 then 0 else 1
  {
    var abs := if scaled < 0 then -scaled else scaled;
    var factor := Pow10(decimals);
    var q, r := TruncDiv(abs, factor), TruncRem(abs, factor);
    var frac := PadStart(NatToString(r), decimals, '0');
    NatToStringDigits(q);
    NatToStringDigits(r);
    PadStartShape(NatToString(r), decimals, '0');
    RenderingPoints(FormatScaled(scaled, decimals), if scaled < 0 then "-" else "", NatToString(q), frac, decimals);
  }

  /**
   * For `decimals > 0` `formatScaled` writes, after the optional '-', at least
   * one decimal digit, then the '.', then exactly `decimals` digits.
   */
  lemma FormatScaledFraction(scaled: int, decimals: nat)
    requires decimals > 0
    ensures var t := FormatScaled(scaled, decimals);
      var k := if scaled < 0 then 1 else 0;
      && |t| >= k + decimals + 2
      && t[|t| - decimals - 1] == '.'
      && AllDigits(t[|t| - decimals..])
      && AllDigits(t[k..|t| - decimals - 1])
  {
    var abs := if scaled < 0 then -scaled else scaled;
    var factor := Pow10(decimals);
    var q, r := TruncDiv(abs, factor), TruncRem(abs, factor);
    var sign := if scaled < 0 then "-" else "";
    var digits, frac := NatToString(q), PadStart(NatToString(r), decimals, '0');
    var t := FormatScaled(scaled, decimals);
    MagnitudeParts(abs, decimals);
    PaddedFraction(r, decimals);
    NatToStringDigits(q);
    assert t == sign + (digits + "." + frac);
    RenderingFraction(t, sign, digits, frac);
    assert t[|sign|..|t| - decimals - 1] == digits;
  }

  /** For `decimals == 0` `formatScaled` writes, after the optional '-', decimal digits only, at least one. */
  lemma FormatScaledWhole(scaled: int)
    ensures var t := FormatScaled(scaled, 0);
      var k := if scaled < 0 then 1 else 0;
      |t| > k && AllDigits(t[k..])
  {
    var abs := if scaled < 0 then -scaled else scaled;
    var q := TruncDiv(abs, Pow10(0));
    var sign := if scaled < 0 then "-" else "";
    var t := FormatScaled(scaled, 0);
    MagnitudeParts(abs, 0);
    NatToStringDigits(q);
    assert t == sign + NatToString(q);
    assert t[|sign|..] == NatToString(q);
  }

  /** Reading a rendering of `formatScaled` back gives the scaled integer it was made from. */
  lemma FormatScaledRoundTrip(scaled: int, decimals: nat)
    ensures ParseScaled(FormatScaled(scaled, decimals)) == scaled
  {
    var abs := if scaled < 0 then -scaled else scaled;
    var factor := Pow10(decimals);
    MagnitudeParts(abs, decimals);
    var q, r := TruncDiv(abs, factor), TruncRem(abs, factor);
    var b := FixedPoint(q, r, decimals);
    FixedPointValue(q, r, decimals);
    if scaled < 0 {
      assert ("-" + b)[1..] == b;
    } else {
      assert "" + b == b;
    }
  }

  /**
   * `formatScaledWithSign` is `formatScaled` behind a '+' for non-negative
   * numbers, and `formatScaled` itself (which already carries the '-') for
   * negative ones; it reads back to the same integer.
   */
  lemma FormatScaledWithSignIsSigned(scaled: int, decimals: nat)
    ensures FormatScaledWithSign(scaled, decimals)
      == if scaled >= 0 then "+" + FormatScaled(scaled, decimals) else FormatScaled(scaled, decimals)
    ensures ParseScaled(FormatScaledWithSign(scaled, decimals)) == scaled
  {
    var abs := if scaled < 0 then -scaled else scaled;
    var factor := Pow10(decimals);
    MagnitudeParts(abs, decimals);
    var q, r := TruncDiv(abs, factor), TruncRem(abs, factor);
    var b := FixedPoint(q, r, decimals);
    assert FormatScaled(abs, decimals) == b by {
      assert "" + b == b;
    }
    FixedPointValue(q, r, decimals);
    assert FormatScaledWithSign(scaled, decimals)[1..] == b;
  }

  // ---------------------------------------------------------------------------
  // calcPercent
  // ---------------------------------------------------------------------------

  /** The label `"<src> -> <dest> = <signed>%"`. */
  function Label(src: int, dest: int, signed: string): string {
    IntToString(src) + " -> " + IntToString(dest) + " = " + signed + "%"
  }

  /**
   * `calcPercent`: nothing for a source BPM that is not positive; otherwise
   * the change rounded to two decimals, unsigned, signed and as a label.
   */
  function CalcPercent(src: int, dest: int): (r: Option<CalcResult>)
    ensures r.None? <==> src <= 0
    ensures r.Some? ==> r.value.labelText == Label(src, dest, r.value.valueTextSigned)
  {
    if src <= 0 then None
    else
      var p2 := RoundPercentScaled(src, dest, 2);
      var signed := FormatScaledWithSign(p2, 2);
      Some(CalcResult(FormatScaled(p2, 2), signed, Label(src, dest, signed)))
  }

  /** Both texts of `calcPercent` read back as the change in hundredths of a percent, rounded half away from zero. */
  lemma CalcPercentReadBack(src: int, dest: int)
    requires src > 0
    ensures var r := CalcPercent(src, dest).value;
      var p2 := RoundHalfAwayFromZero((dest - src) * 10000, src);
      ParseScaled(r.valueText) == p2 && ParseScaled(r.valueTextSigned) == p2
  {
    HundredthsOfPercent(src, dest);
    var p2 := RoundPercentScaled(src, dest, 2);
    FormatScaledRoundTrip(p2, 2);
    FormatScaledWithSignIsSigned(p2, 2);
  }

  /** The signed text of `calcPercent` is the unsigned one behind a '+', unless the change is negative. */
  lemma CalcPercentSignedText(src: int, dest: int)
    requires src > 0
    ensures var r := CalcPercent(src, dest).value;
      r.valueTextSigned == if RoundPercentScaled(src, dest, 2) >= 0 then "+" + r.valueText else r.valueText
  {
    FormatScaledWithSignIsSigned(RoundPercentScaled(src, dest, 2), 2);
  }

  /** The unsigned text of `calcPercent` ends in a '.' and two digits. */
  lemma CalcPercentTwoDecimals(src: int, dest: int)
    requires src > 0
    ensures var t := CalcPercent(src, dest).value.valueText;
      |t| >= 4 && t[|t| - 3] == '.' && AllDigits(t[|t| - 2..])
  {
    FormatScaledFraction(RoundPercentScaled(src, dest, 2), 2);
  }

  /** At two decimals the scaled change is the rounded `(dest - src) * 10000 / src`. */
  lemma HundredthsOfPercent(src: int, dest: int)
    requires src > 0
    ensures RoundPercentScaled(src, dest, 2) == RoundHalfAwayFromZero((dest - src) * 10000, src)
  {
    assert Pow10(2) == 100;
    assert (dest - src) * 100 * 100 == (dest - src) * 10000;
  }

  /**
   * For a source BPM up to 20000 the signed text starts with '-' exactly when
   * the destination is slower, and with '+' otherwise.
   */
  lemma CalcPercentSign(src: int, dest: int)
    requires 0 < src <= 20000
    ensures CalcPercent(src, dest).value.valueTextSigned[0] == if dest < src then '-' else '+'
  {
    var num := (dest - src) * 10000;
    assert Pow10(2) == 100;
    assert (dest - src) * 100 * 100 == num;
    var p2 := RoundHalfAwayFromZero(num, src);
    RoundHalfAwayFromZeroIsNearest(num, src);
    if dest < src {
      assert num <= -10000;
      assert p2 != 0;
    }
  }

  /** A BPM compared with itself reads "0.00" and "+0.00". */
  lemma CalcPercentSame(bpm: int)
    requires bpm > 0
    ensures CalcPercent(bpm, bpm).value.valueText == "0.00"
    ensures CalcPercent(bpm, bpm).value.valueTextSigned == "+0.00"
  {
    RoundPercentScaledSame(bpm, 2);
    assert Pow10(2) == 100;
    assert NatToString(0) == "0";
    assert PadStart("0", 2, '0') == "00";
    assert FormatScaled(0, 2) == "0.00";
  }

  /** `formatScaled` of a magnitude known to split into `intPart` and `fracPart`. */
  lemma FormatScaledOfParts(p: nat, decimals: nat, intPart: nat, fracPart: nat)
    requires p == intPart * Pow10(decimals) + fracPart && fracPart < Pow10(decimals)
    ensures FormatScaled(p, decimals) == FixedPoint(intPart, fracPart, decimals)
  {
    TruncDivision(p, Pow10(decimals));
    DivUnique(p, Pow10(decimals), intPart, fracPart);
    var b := FixedPoint(intPart, fracPart, decimals);
    assert "" + b == b;
  }

  /** `formatScaledWithSign` from the rendering `t` of the magnitude. */
  lemma FormatScaledWithSignOf(p: int, decimals: nat, t: string)
    requires FormatScaled(Abs(p), decimals) == t
    ensures FormatScaledWithSign(p, decimals) == (if p < 0 then "-" else "+") + t
  {
  }

  /** Two digits padded by `padStart(2, '0')`: the tens digit, then the units digit. */
  lemma TwoDigits(r: nat)
    requires r < 100
    ensures PadStart(NatToString(r), 2, '0') == [DigitChar(r / 10), DigitChar(r % 10)]
  {
    if r < 10 {
      assert NatToString(r) == [DigitChar(r)];
      assert DigitChar(0) == '0';
    } else {
      assert NatToString(r / 10) == [DigitChar(r / 10)];
    }
  }

  /** The template of one digit and two decimals. */
  lemma SmallFixedPoint(q: nat, r: nat)
    requires q < 10 && r < 100
    ensures FixedPoint(q, r, 2) == [DigitChar(q), '.', DigitChar(r / 10), DigitChar(r % 10)]
  {
    assert NatToString(q) == [DigitChar(q)];
    TwoDigits(r);
  }

  /** A change of less than 10% renders as a sign, one digit, '.', and two digits. */
  lemma SignedHundredths(p2: int)
    requires Abs(p2) < 1000
    ensures var a := Abs(p2);
      FormatScaledWithSign(p2, 2)
        == [if p2 < 0 then '-' else '+', DigitChar(a / 100), '.', DigitChar(a % 100 / 10), DigitChar(a % 100 % 10)]
  {
    var a := Abs(p2);
    var q, r := a / 100, a % 100;
    var t := [DigitChar(q), '.', DigitChar(r / 10), DigitChar(r % 10)];
    UnsignedHundredths(a, q, r);
    SignedFromMagnitude(p2, 2, t, [if p2 < 0 then '-' else '+', DigitChar(q), '.', DigitChar(r / 10), DigitChar(r % 10)]);
  }

  lemma UnsignedHundredths(a: nat, q: nat, r: nat)
    requires a == q * 100 + r && q < 10 && r < 100
    ensures FormatScaled(a, 2) == [DigitChar(q), '.', DigitChar(r / 10), DigitChar(r % 10)]
  {
    assert Pow10(2) == 100;
    FormatScaledOfParts(a, 2, q, r);
    SmallFixedPoint(q, r);
  }

  /** `formatScaledWithSign` is the sign character followed by the rendering `t` of the magnitude. */
  lemma SignedFromMagnitude(p: int, decimals: nat, t: string, u: string)
    requires FormatScaled(Abs(p), decimals) == t
    requires u == [if p < 0 then '-' else '+'] + t
    ensures FormatScaledWithSign(p, decimals) == u
  {
    FormatScaledWithSignOf(p, decimals, t);
  }

  /** The signed text of `calcPercent` for a known change in hundredths. */
  lemma SignedTextOf(src: int, dest: int, p2: int)
    requires src > 0 && RoundPercentScaled(src, dest, 2) == p2
    ensures CalcPercent(src, dest).value.valueTextSigned == FormatScaledWithSign(p2, 2)
  {
  }

  /** The worked example 125 -> 126 = +0.80%. */
  lemma CalcPercentExample125()
    ensures CalcPercent(125, 126).value.valueTextSigned == "+0.80"
  {
    HundredthsOfPercent(125, 126);
    SignedHundredths(80);
    SignedTextOf(125, 126, 80);
  }

  /** The worked example 122 -> 123 = +0.82%. */
  lemma CalcPercentExample122()
    ensures CalcPercent(122, 123).value.valueTextSigned == "+0.82"
  {
    HundredthsOfPercent(122, 123);
    SignedHundredths(82);
    SignedTextOf(122, 123, 82);
  }

  /** An exact tie rounds away from zero: 32 -> 33 is +3.125% and reads +3.13, 32 -> 31 reads -3.13. */
  lemma CalcPercentTies()
    ensures CalcPercent(32, 33).value.valueTextSigned == "+3.13"
    ensures CalcPercent(32, 31).value.valueTextSigned == "-3.13"
  {
    HundredthsOfPercent(32, 33);
    HundredthsOfPercent(32, 31);
    SignedHundredths(313);
    SignedHundredths(-313);
    SignedTextOf(32, 33, 313);
    SignedTextOf(32, 31, -313);
  }

  // ---------------------------------------------------------------------------
  // buildTable
  // ---------------------------------------------------------------------------

  /** `bpms`: the Size consecutive BPMs that start at `bpmMin`. */
  function Bpms(bpmMin: int): (bpms: seq<int>)
    ensures |bpms| == Size
    ensures forall i :: 0 <= i < Size ==> bpms[i] == bpmMin + i
  {
    seq(Size, i => bpmMin + i)
  }

  /** The in-range test: the change rounded to one decimal lies within `pitchScaled` tenths of a percent. */
  predicate InRange(src: int, dest: int, pitchScaled: int) {
    Abs(RoundPercentScaled(src, dest, 1)) <= pitchScaled
  }

  predicate IsSquare(g: seq<seq<bool>>, n: nat) {
    |g| == n && forall i :: 0 <= i < n ==> |g[i]| == n
  }

  /** `inRange`: the in-range test of every (row, column) pair of `bpms`. */
  function InRangeGrid(bpms: seq<int>, pitchScaled: int): (g: seq<seq<bool>>)
    ensures IsSquare(g, |bpms|)
    ensures forall i, j :: 0 <= i < |bpms| && 0 <= j < |bpms| ==> g[i][j] == InRange(bpms[i], bpms[j], pitchScaled)
  {
    seq(|bpms|, i requires 0 <= i < |bpms| => seq(|bpms|, j requires 0 <= j < |bpms| => InRange(bpms[i], bpms[j], pitchScaled)))
  }

  /**
   * The base class of a cell, the first rule that applies: black on the
   * diagonal and where both BPMs are multiples of 10, gray where exactly one
   * is, then green when in range and red when not. (A zero remainder means
   * the same under JavaScript's `%` and Dafny's.)
   */
  function BaseClass(src: int, dest: int, isInRange: bool): (c: string)
    ensures c == "bpmtable_black" <==> src == dest || (src % 10 == 0 && dest % 10 == 0)
    ensures c == "bpmtable_gray" <==> src != dest && ((src % 10 == 0) != (dest % 10 == 0))
    ensures c == "bpmtable_greenpitch" <==> src != dest && src % 10 != 0 && dest % 10 != 0 && isInRange
    ensures c == "bpmtable_redpitch" <==> src != dest && src % 10 != 0 && dest % 10 != 0 && !isInRange
  {
    var isSame := src == dest;
    var isBlackCross := src % 10 == 0 && dest % 10 == 0;
    var isGray := (src % 10 == 0 || dest % 10 == 0) && !isBlackCross;
    if isSame || isBlackCross then "bpmtable_black"
    else if isGray then "bpmtable_gray"
    else if isInRange then "bpmtable_greenpitch"
    else "bpmtable_redpitch"
  }

  /**
   * The edge classes of cell (i, j): none unless the cell is in range; then
   * one per neighbour inside the grid that is not, right, left, top, bottom.
   */
  function EdgeClasses(g: seq<seq<bool>>, i: nat, j: nat): seq<string>
    requires IsSquare(g, |g|) && i < |g| && j < |g|
  {
    var n := |g|;
    if !g[i][j] then []
    else
      (if j + 1 < n && !g[i][j + 1] then ["edge-r"] else [])
      + (if j >= 1 && !g[i][j - 1] then ["edge-l"] else [])
      + (if i >= 1 && !g[i - 1][j] then ["edge-t"] else [])
      + (if i + 1 < n && !g[i + 1][j] then ["edge-b"] else [])
  }

  /** The cell at row `i`, column `j` of the grid over `bpms` with in-range matrix `g`. */
  function MakeCell(bpms: seq<int>, g: seq<seq<bool>>, i: nat, j: nat): TableCell
    requires IsSquare(g, |bpms|) && i < |bpms| && j < |bpms|
  {
    var src, dest := bpms[i], bpms[j];
    var p2 := RoundPercentScaled(src, dest, 2);
    var isSame := src == dest;
    var baseClass := BaseClass(src, dest, g[i][j]);
    TableCell(
      IntToString(src) + "-" + IntToString(dest),
      src,
      dest,
      if isSame then "" else FormatScaled(p2, 2),
      if isSame then "" else FormatScaledWithSign(p2, 2),
      if isSame then "" else Label(src, dest, FormatScaledWithSign(p2, 2)),
      Trim(Join([baseClass] + EdgeClasses(g, i, j), " ")),
      !isSame)
  }

  /** The cell at row `i`, column `j` of the table that starts at `bpmMin`. */
  function Cell(bpmMin: int, pitchScaled: int, i: nat, j: nat): (c: TableCell)
    requires i < Size && j < Size
    ensures c.src == bpmMin + i && c.dest == bpmMin + j
    ensures c.key == IntToString(c.src) + "-" + IntToString(c.dest)
    ensures c.selectable <==> c.src != c.dest
  {
    var bpms := Bpms(bpmMin);
    MakeCell(bpms, InRangeGrid(bpms, pitchScaled), i, j)
  }

  /** The first `n` cells of row `i`, column by column. */
  function RowCells(bpms: seq<int>, g: seq<seq<bool>>, i: nat, n: nat): (cells: seq<TableCell>)
    requires IsSquare(g, |bpms|) && i < |bpms| && n <= |bpms|
  {
    seq(n, j requires 0 <= j < n => MakeCell(bpms, g, i, j))
  }

  /** The first `n` rows, row by row: row `i` starts at `bpms[i]`. */
  function TableRows(bpms: seq<int>, g: seq<seq<bool>>, n: nat): (rows: seq<TableRow>)
    requires IsSquare(g, |bpms|) && n <= |bpms|
  {
    seq(n, i requires 0 <= i < n => TableRow(bpms[i], RowCells(bpms, g, i, |bpms|)))
  }

  /** `rows` of `buildTable`. */
  function Rows(bpmMin: int, pitchScaled: int): seq<TableRow> {
    var bpms := Bpms(bpmMin);
    TableRows(bpms, InRangeGrid(bpms, pitchScaled), |bpms|)
  }

  lemma NextCell(bpms: seq<int>, g: seq<seq<bool>>, i: nat, j: nat)
    requires IsSquare(g, |bpms|) && i < |bpms| && j < |bpms|
    ensures RowCells(bpms, g, i, j) + [MakeCell(bpms, g, i, j)] == RowCells(bpms, g, i, j + 1)
  {
    var longer := RowCells(bpms, g, i, j + 1);
    assert longer[..j] == RowCells(bpms, g, i, j);
    AppendLast(longer, RowCells(bpms, g, i, j), MakeCell(bpms, g, i, j));
  }

  /** A sequence is its first elements followed by its last. */
  lemma AppendLast<T>(longer: seq<T>, prefix: seq<T>, last: T)
    requires |longer| == |prefix| + 1 && longer[..|prefix|] == prefix && longer[|prefix|] == last
    ensures prefix + [last] == longer
  {
  }

  lemma NextRow(bpms: seq<int>, g: seq<seq<bool>>, i: nat)
    requires IsSquare(g, |bpms|) && i < |bpms|
    ensures TableRows(bpms, g, i) + [TableRow(bpms[i], RowCells(bpms, g, i, |bpms|))] == TableRows(bpms, g, i + 1)
  {
  }

  /**
   * The table `buildTable` returns: the BPMs, the rows, and as default
   * selection the cell from `bpmMin` to `bpmMin + 1` with its label.
   */
  function Table(bpmMin: int, pitchScaled: int): TableData {
    TableData(Bpms(bpmMin), Rows(bpmMin, pitchScaled), Some(Selection(bpmMin, bpmMin + 1, Cell(bpmMin, pitchScaled, 0, 1).labelText)))
  }

  /**
   * `buildTable`: the rows of the table cell by cell, and as default
   * selection the first cell from `bpmMin` to `bpmMin + 1`.
   */
  method BuildTable(bpmMin: int, pitchScaled: int) returns (data: TableData)
    ensures data == Table(bpmMin, pitchScaled)
  {
    var bpms := Bpms(bpmMin);
    var inRange := InRangeGrid(bpms, pitchScaled);
    var defaultSelection: Option<Selection> := None;
    var rows: seq<TableRow> := [];
    for i := 0 to |bpms|
      invariant rows == TableRows(bpms, inRange, i)
      invariant defaultSelection == if i == 0 then None else Some(Selection(bpmMin, bpmMin + 1, MakeCell(bpms, inRange, 0, 1).labelText))
    {
      var cells;
      cells, defaultSelection := BuildRow(bpmMin, bpms, inRange, i, defaultSelection);
      NextRow(bpms, inRange, i);
      rows := rows + [TableRow(bpms[i], cells)];
    }
    data := TableData(bpms, rows, defaultSelection);
  }

  /**
   * The cells of row `i`, column by column, and the default selection once
   * the cell from `bpmMin` to `bpmMin + 1` has been met.
   */
  method BuildRow(bpmMin: int, bpms: seq<int>, inRange: seq<seq<bool>>, i: nat, selection: Option<Selection>)
    returns (cells: seq<TableCell>, defaultSelection: Option<Selection>)
    requires bpms == Bpms(bpmMin) && IsSquare(inRange, |bpms|) && i < |bpms|
    ensures cells == RowCells(bpms, inRange, i, |bpms|)
    ensures defaultSelection
      == if selection.None? && i == 0 then Some(Selection(bpmMin, bpmMin + 1, MakeCell(bpms, inRange, 0, 1).labelText)) else selection
  {
    defaultSelection := selection;
    cells := [];
    for j := 0 to |bpms|
      invariant cells == RowCells(bpms, inRange, i, j)
      invariant defaultSelection
        == if selection.None? && i == 0 && j > 1 then Some(Selection(bpmMin, bpmMin + 1, MakeCell(bpms, inRange, 0, 1).labelText)) else selection
    {
      var cell := MakeCell(bpms, inRange, i, j);
      assert bpms[i] == bpmMin && bpms[j] == bpmMin + 1 <==> i == 0 && j == 1;
      if defaultSelection.None? && bpms[i] == bpmMin && bpms[j] == bpmMin + 1 {
        defaultSelection := Some(Selection(bpms[i], bpms[j], cell.labelText));
      }
      NextCell(bpms, inRange, i, j);
      cells := cells + [cell];
    }
  }

  /** For non-negative BPMs no two cells of a table share a key. */
  lemma KeysUnique(bpmMin: int, pitchScaled: int, i: nat, j: nat, k: nat, l: nat)
    requires bpmMin >= 0 && i < Size && j < Size && k < Size && l < Size
    requires Cell(bpmMin, pitchScaled, i, j).key == Cell(bpmMin, pitchScaled, k, l).key
    ensures i == k && j == l
  {
    var cell, cell' := Cell(bpmMin, pitchScaled, i, j), Cell(bpmMin, pitchScaled, k, l);
    KeyInjective(cell.key, cell.src, cell.dest, cell'.key, cell'.src, cell'.dest);
  }

  /** The key `"<src>-<dest>"` of non-negative BPMs determines both of them. */
  lemma KeyInjective(key: string, src: int, dest: int, key': string, src': int, dest': int)
    requires src >= 0 && dest >= 0 && src' >= 0 && dest' >= 0
    requires key == IntToString(src) + "-" + IntToString(dest) && key' == IntToString(src') + "-" + IntToString(dest')
    requires key == key'
    ensures src == src' && dest == dest'
  {
    KeyParts(src, dest);
    KeyParts(src', dest');
    var parts, parts' := [NatToString(src), NatToString(dest)], [NatToString(src'), NatToString(dest')];
    assert parts == parts';
    assert parts[0] == parts'[0] && parts[1] == parts'[1];
    NatToStringInjective(src, src');
    NatToStringInjective(dest, dest');
  }

  /** A key `"<src>-<dest>"` of non-negative BPMs splits at its '-' into the two numbers. */
  lemma KeyParts(src: nat, dest: nat)
    ensures Split(IntToString(src) + "-" + IntToString(dest), '-') == [NatToString(src), NatToString(dest)]
  {
    var a, b := NatToString(src), NatToString(dest);
    NatToStringDigits(src);
    NatToStringDigits(dest);
    NoPointInDigits(a);
    NoPointInDigits(b);
    SplitAtFirstSeparator(a, '-', b);
    SplitWithoutSeparator(b, '-');
  }

  /** Row `i` of `rows` starts at `bpmMin + i` and its cell in column `j` is the cell of (i, j). */
  lemma RowsCell(bpmMin: int, pitchScaled: int, i: nat, j: nat)
    requires i < Size && j < Size
    ensures var rows := Rows(bpmMin, pitchScaled);
      |rows| == Size && rows[i].src == bpmMin + i && |rows[i].cells| == Size
      && rows[i].cells[j] == Cell(bpmMin, pitchScaled, i, j)
  {
  }

  /** The table that starts at `bpmMin` spans `bpmMin` to `bpmMin + Range`, one row per BPM. */
  lemma TableWindow(bpmMin: int, pitchScaled: int, data: TableData)
    requires data == Table(bpmMin, pitchScaled)
    ensures |data.bpms| == Size && data.bpms[0] == bpmMin && data.bpms[|data.bpms| - 1] == bpmMin + Range
    ensures |data.rows| == Size
  {
  }

  /** Row `i`, column `j` of the table that starts at `bpmMin` holds the cell of (i, j). */
  lemma TableHasCell(bpmMin: int, pitchScaled: int, i: nat, j: nat)
    requires i < Size && j < Size
    ensures var rows := Table(bpmMin, pitchScaled).rows;
      |rows| == Size && |rows[i].cells| == Size && rows[i].cells[j] == Cell(bpmMin, pitchScaled, i, j)
  {
    RowsCell(bpmMin, pitchScaled, i, j);
  }

  /** Row `i` of `data` is a full row whose cell `j` goes from `bpmMin + i` to `bpmMin + j`, selectable off the diagonal. */
  predicate WindowCell(data: TableData, bpmMin: int, i: nat, j: nat) {
    && i < |data.rows| && |data.rows[i].cells| == Size && j < Size
    && var c := data.rows[i].cells[j]; c.src == bpmMin + i && c.dest == bpmMin + j && c.selectable == (i != j)
  }

  /** The shape of a table over the window `bpmMin .. bpmMin + Range`. */
  predicate IsWindow(data: TableData, bpmMin: int) {
    && |data.bpms| == Size && data.bpms[0] == bpmMin && data.bpms[Size - 1] == bpmMin + Range
    && |data.rows| == Size
    && forall i: nat, j: nat :: i < Size && j < Size ==> WindowCell(data, bpmMin, i, j)
  }

  /** The table `buildTable` returns has the shape of its window. */
  lemma TableIsWindow(bpmMin: int, pitchScaled: int)
    ensures IsWindow(Table(bpmMin, pitchScaled), bpmMin)
  {
    TableWindow(bpmMin, pitchScaled, Table(bpmMin, pitchScaled));
    forall i: nat, j: nat | i < Size && j < Size
      ensures WindowCell(Table(bpmMin, pitchScaled), bpmMin, i, j)
    {
      TableWindowCell(bpmMin, pitchScaled, i, j);
    }
  }

  lemma TableWindowCell(bpmMin: int, pitchScaled: int, i: nat, j: nat)
    requires i < Size && j < Size
    ensures WindowCell(Table(bpmMin, pitchScaled), bpmMin, i, j)
  {
    TableHasCell(bpmMin, pitchScaled, i, j);
  }

  /**
   * The texts of a cell are empty on the diagonal; elsewhere, for a positive
   * source BPM, they are those of `calcPercent`.
   */
  lemma CellTexts(bpmMin: int, pitchScaled: int, i: nat, j: nat)
    requires i < Size && j < Size
    ensures var c := Cell(bpmMin, pitchScaled, i, j);
      && (i == j ==> c.valueText == "" && c.valueTextSigned == "" && c.labelText == "")
      && (i != j && c.src > 0 ==>
        var r := CalcPercent(c.src, c.dest).value;
        c.valueText == r.valueText && c.valueTextSigned == r.valueTextSigned && c.labelText == r.labelText)
  {
  }

  /** With a threshold of at least zero every BPM is in range of itself. */
  lemma DiagonalInRange(bpm: int, pitchScaled: int)
    requires pitchScaled >= 0
    ensures InRange(bpm, bpm, pitchScaled)
  {
    RoundPercentScaledSame(bpm, 1);
  }

  /** The position of an edge class in the order in which `buildTable` adds them. */
  function EdgeRank(e: string): nat {
    if e == "edge-r" then 0 else if e == "edge-l" then 1 else if e == "edge-t" then 2 else if e == "edge-b" then 3 else 4
  }

  /**
   * A cell carries an edge class exactly for each neighbour inside the grid
   * that fails the in-range test, and only when it passes the test itself;
   * the classes come in the order right, left, top, bottom, each at most once.
   */
  lemma EdgeClassesRules(g: seq<seq<bool>>, i: nat, j: nat)
    requires IsSquare(g, |g|) && i < |g| && j < |g|
    ensures var e := EdgeClasses(g, i, j);
      && ("edge-r" in e <==> g[i][j] && j + 1 < |g| && !g[i][j + 1])
      && ("edge-l" in e <==> g[i][j] && j >= 1 && !g[i][j - 1])
      && ("edge-t" in e <==> g[i][j] && i >= 1 && !g[i - 1][j])
      && ("edge-b" in e <==> g[i][j] && i + 1 < |g| && !g[i + 1][j])
      && (forall a :: 0 <= a < |e| ==> EdgeRank(e[a]) < 4)
      && (forall a :: 0 <= a < |e| - 1 ==> EdgeRank(e[a]) < EdgeRank(e[a + 1]))
  {
    var n := |g|;
    if g[i][j] {
      EdgeRanks();
      EdgeList(j + 1 < n && !g[i][j + 1], j >= 1 && !g[i][j - 1], i >= 1 && !g[i - 1][j], i + 1 < n && !g[i + 1][j],
        "edge-r", "edge-l", "edge-t", "edge-b", EdgeClasses(g, i, j));
    }
  }

  /** The classes `r`, `l`, `t`, `b`, ranked 0 to 3, each kept when its condition holds. */
  lemma EdgeList(right: bool, left: bool, top: bool, bottom: bool, r: string, l: string, t: string, b: string, e: seq<string>)
    requires EdgeRank(r) == 0 && EdgeRank(l) == 1 && EdgeRank(t) == 2 && EdgeRank(b) == 3
    requires e == (if right then [r] else []) + (if left then [l] else []) + (if top then [t] else []) + (if bottom then [b] else [])
    ensures (r in e <==> right) && (l in e <==> left) && (t in e <==> top) && (b in e <==> bottom)
    ensures forall a :: 0 <= a < |e| ==> EdgeRank(e[a]) < 4
    ensures forall a :: 0 <= a < |e| - 1 ==> EdgeRank(e[a]) < EdgeRank(e[a + 1])
  {
    if right && left {
      EdgeListRightLeft(right, left, top, bottom, r, l, t, b, e);
    } else if right {
      EdgeListRightOnly(right, left, top, bottom, r, l, t, b, e);
    } else if left {
      EdgeListLeftOnly(right, left, top, bottom, r, l, t, b, e);
    } else {
      EdgeListNeitherSide(right, left, top, bottom, r, l, t, b, e);
    }
  }

  lemma EdgeListRightLeft(right: bool, left: bool, top: bool, bottom: bool, r: string, l: string, t: string, b: string, e: seq<string>)
    requires right && left
    requires EdgeRank(r) == 0 && EdgeRank(l) == 1 && EdgeRank(t) == 2 && EdgeRank(b) == 3
    requires e == (if right then [r] else []) + (if left then [l] else []) + (if top then [t] else []) + (if bottom then [b] else [])
    ensures (r in e <==> right) && (l in e <==> left) && (t in e <==> top) && (b in e <==> bottom)
    ensures forall a :: 0 <= a < |e| ==> EdgeRank(e[a]) < 4
    ensures forall a :: 0 <= a < |e| - 1 ==> EdgeRank(e[a]) < EdgeRank(e[a + 1])
  {
    if top {
      if bottom { assert e == [r, l, t, b]; } else { assert e == [r, l, t]; }
    } else {
      if bottom { assert e == [r, l, b]; } else { assert e == [r, l]; }
    }
  }

  lemma EdgeListRightOnly(right: bool, left: bool, top: bool, bottom: bool, r: string, l: string, t: string, b: string, e: seq<string>)
    requires right && !left
    requires EdgeRank(r) == 0 && EdgeRank(l) == 1 && EdgeRank(t) == 2 && EdgeRank(b) == 3
    requires e == (if right then [r] else []) + (if left then [l] else []) + (if top then [t] else []) + (if bottom then [b] else [])
    ensures (r in e <==> right) && (l in e <==> left) && (t in e <==> top) && (b in e <==> bottom)
    ensures forall a :: 0 <= a < |e| ==> EdgeRank(e[a]) < 4
    ensures forall a :: 0 <= a < |e| - 1 ==> EdgeRank(e[a]) < EdgeRank(e[a + 1])
  {
    if top {
      if bottom { assert e == [r, t, b]; } else { assert e == [r, t]; }
    } else {
      if bottom { assert e == [r, b]; } else { assert e == [r]; }
    }
  }

  lemma EdgeListLeftOnly(right: bool, left: bool, top: bool, bottom: bool, r: string, l: string, t: string, b: string, e: seq<string>)
    requires !right && left
    requires EdgeRank(r) == 0 && EdgeRank(l) == 1 && EdgeRank(t) == 2 && EdgeRank(b) == 3
    requires e == (if right then [r] else []) + (if left then [l] else []) + (if top then [t] else []) + (if bottom then [b] else [])
    ensures (r in e <==> right) && (l in e <==> left) && (t in e <==> top) && (b in e <==> bottom)
    ensures forall a :: 0 <= a < |e| ==> EdgeRank(e[a]) < 4
    ensures forall a :: 0 <= a < |e| - 1 ==> EdgeRank(e[a]) < EdgeRank(e[a + 1])
  {
    if top {
      if bottom { assert e == [l, t, b]; } else { assert e == [l, t]; }
    } else {
      if bottom { assert e == [l, b]; } else { assert e == [l]; }
    }
  }

  lemma EdgeListNeitherSide(right: bool, left: bool, top: bool, bottom: bool, r: string, l: string, t: string, b: string, e: seq<string>)
    requires !right && !left
    requires EdgeRank(r) == 0 && EdgeRank(l) == 1 && EdgeRank(t) == 2 && EdgeRank(b) == 3
    requires e == (if right then [r] else []) + (if left then [l] else []) + (if top then [t] else []) + (if bottom then [b] else [])
    ensures (r in e <==> right) && (l in e <==> left) && (t in e <==> top) && (b in e <==> bottom)
    ensures forall a :: 0 <= a < |e| ==> EdgeRank(e[a]) < 4
    ensures forall a :: 0 <= a < |e| - 1 ==> EdgeRank(e[a]) < EdgeRank(e[a + 1])
  {
    if top {
      if bottom { assert e == [t, b]; } else { assert e == [t]; }
    } else {
      if bottom { assert e == [b]; } else { assert e == []; }
    }
  }

  lemma EdgeRanks()
    ensures EdgeRank("edge-r") == 0 && EdgeRank("edge-l") == 1 && EdgeRank("edge-t") == 2 && EdgeRank("edge-b") == 3
  {
    assert "edge-r"[5] == 'r' && "edge-l"[5] == 'l' && "edge-t"[5] == 't' && "edge-b"[5] == 'b';
  }


  /** A CSS class name as `buildTable` writes them: lower-case letters, '_' and '-'. */
  predicate IsClassToken(s: string) {
    |s| >= 1 && forall k :: 0 <= k < |s| ==> 'a' <= s[k] <= 'z' || s[k] == '_' || s[k] == '-'
  }

  lemma ClassTokenShape(s: string)
    requires IsClassToken(s)
    ensures ' ' !in s && !IsJsWhitespace(s[0]) && !IsJsWhitespace(s[|s| - 1])
  {
  }

  lemma BaseClassIsToken(src: int, dest: int, isInRange: bool)
    ensures IsClassToken(BaseClass(src, dest, isInRange))
  {
  }

  lemma EdgeClassesAreTokens(g: seq<seq<bool>>, i: nat, j: nat)
    requires IsSquare(g, |g|) && i < |g| && j < |g|
    ensures var e := EdgeClasses(g, i, j); forall k :: 0 <= k < |e| ==> IsClassToken(e[k])
  {
  }

  /** Joining class names with ' ' and trimming gives a string that splits back into them. */
  lemma ClassNameTokens(base: string, edges: seq<string>)
    requires IsClassToken(base) && forall k :: 0 <= k < |edges| ==> IsClassToken(edges[k])
    ensures Split(Trim(Join([base] + edges, " ")), ' ') == [base] + edges
  {
    var names := [base] + edges;
    NamesShape(base, edges, names);
    var joined := Join(names, [' ']);
    JoinUntrimmed(names, joined);
    SplitJoin(names, ' ');
  }

  lemma NamesShape(base: string, edges: seq<string>, names: seq<string>)
    requires IsClassToken(base) && forall k :: 0 <= k < |edges| ==> IsClassToken(edges[k])
    requires names == [base] + edges
    ensures forall k :: 0 <= k < |names| ==> |names[k]| >= 1 && ' ' !in names[k]
    ensures !IsJsWhitespace(names[0][0]) && !IsJsWhitespace(names[|names| - 1][|names[|names| - 1]| - 1])
  {
    forall k | 1 <= k < |names|
      ensures |names[k]| >= 1 && ' ' !in names[k]
    {
      assert names[k] == edges[k - 1];
      ClassTokenShape(edges[k - 1]);
    }
    ClassTokenShape(base);
    if |edges| > 0 {
      ClassTokenShape(edges[|edges| - 1]);
    }
  }

  /** Pieces that neither start nor end the join with white space leave nothing for `trim` to remove. */
  lemma JoinUntrimmed(names: seq<string>, joined: string)
    requires |names| >= 1 && forall k :: 0 <= k < |names| ==> |names[k]| >= 1
    requires !IsJsWhitespace(names[0][0]) && !IsJsWhitespace(names[|names| - 1][|names[|names| - 1]| - 1])
    requires joined == Join(names, [' '])
    ensures Trim(joined) == joined
  {
    JoinEnds(names, [' ']);
  }

  /** The class names of a cell, one per ' '-separated piece: its base class, then its edge classes. */
  lemma CellClasses(bpmMin: int, pitchScaled: int, i: nat, j: nat)
    requires i < Size && j < Size
    ensures var c := Cell(bpmMin, pitchScaled, i, j);
      Split(c.className, ' ')
        == [BaseClass(c.src, c.dest, InRange(c.src, c.dest, pitchScaled))] + EdgeClasses(InRangeGrid(Bpms(bpmMin), pitchScaled), i, j)
  {
    var bpms := Bpms(bpmMin);
    var g := InRangeGrid(bpms, pitchScaled);
    var base := BaseClass(bpms[i], bpms[j], g[i][j]);
    BaseClassIsToken(bpms[i], bpms[j], g[i][j]);
    EdgeClassesAreTokens(g, i, j);
    ClassNameTokens(base, EdgeClasses(g, i, j));
  }

  /** Entry (a, b) of the in-range matrix of a table is the in-range test of its row and column BPMs. */
  lemma GridEntry(bpmMin: int, pitchScaled: int, a: nat, b: nat, src: int, dest: int)
    requires a < Size && b < Size && src == bpmMin + a && dest == bpmMin + b
    ensures var g := InRangeGrid(Bpms(bpmMin), pitchScaled); IsSquare(g, Size) && g[a][b] == InRange(src, dest, pitchScaled)
  {
  }
}
