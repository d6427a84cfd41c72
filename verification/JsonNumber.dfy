/**
 JSON numbers: the printer ("%d" and "%u" for 32-bit integers, "%f" for the rest) and the
 scanner (strtod on decimal notation, then is_decimal). Numbers are exact reals.
 */
module JsonNumber {
  import opened Bytes

  // ------------------------------------------------------------------ printing

  predicate AllDigits(s: bytes) { forall i | 0 <= i < |s| :: IsDigit(s[i]) }

  function DecimalNat(n: nat): (r: bytes)
    ensures |r| >= 1 && AllDigits(r)
    ensures r[0] == ZERO ==> n == 0 && |r| == 1
  {
    if n < 10 then [ZERO + n] else DecimalNat(n / 10) + [ZERO + n % 10]
  }

  /** "%d" */
  function Decimal(n: int): (r: bytes)
    ensures |r| >= 1
  {
    if n < 0 then [MINUS] + DecimalNat(-n) else DecimalNat(n)
  }

  predicate IsInteger(x: real) { x.Floor as real == x }

  /** Integers that the casts to int or unsigned int leave as they are. */
  predicate IsMachineInteger(x: real)
  {
    IsInteger(x) && -2147483648.0 <= x <= 4294967295.0
  }

  /** The number of millionths nearest to x, ties to even: what "%f" prints of a magnitude. */
  function Micros(x: real): nat
    requires x >= 0.0
  {
    var y := x * 1000000.0;
    var f := y.Floor;
    var d := y - f as real;
    if d < 0.5 || (d == 0.5 && f % 2 == 0) then f else f + 1
  }

  function SixDigits(k: nat): (r: bytes)
    requires k < 1000000
    ensures |r| == 6 && AllDigits(r)
  {
    [ZERO + k / 100000, ZERO + k / 10000 % 10, ZERO + k / 1000 % 10, ZERO + k / 100 % 10, ZERO + k / 10 % 10,
        ZERO + k % 10]
  }

  /** k millionths with six decimals. */
  function FixedText(k: nat): bytes
  {
    DecimalNat(k / 1000000) + [DOT] + SixDigits(k % 1000000)
  }

  function Magnitude(x: real): (r: real)
    ensures r >= 0.0
  {
    if x < 0.0 then -x else x
  }

  function Sign(x: real): bytes { if x < 0.0 then [MINUS] else [] }

  /** The number case of json_serialize_to_buffer_r. */
  function NumberText(x: real): (r: bytes)
    ensures |r| >= 1
  {
    if IsMachineInteger(x) then Decimal(x.Floor)
    else Sign(x) + FixedText(Micros(Magnitude(x)))
  }

  // ------------------------------------------------------------------ scanning

  /** How many digits s starts with. */
  function DigitRun(s: bytes): (n: nat)
    ensures n <= |s| && AllDigits(s[..n])
  {
    if s == [] || !IsDigit(s[0]) then 0
    else
      var n := 1 + DigitRun(s[1..]);
      assert s[..n] == [s[0]] + s[1..][..n - 1];
      n
  }

  function NatValue(ds: bytes): nat
    requires AllDigits(ds)
  {
    if ds == [] then 0 else NatValue(ds[..|ds| - 1]) * 10 + (ds[|ds| - 1] - ZERO)
  }

  /** The value of the digits behind a decimal point. */
  function FracValue(ds: bytes): real
    requires AllDigits(ds)
  {
    if ds == [] then 0.0 else ((ds[0] - ZERO) as real + FracValue(ds[1..])) / 10.0
  }

  datatype Scanned = Scanned(value: real, length: nat)

  /** The digits, point and digits of strtod; length 0 when there is no digit at all. */
  function ScanMantissa(s: bytes): (r: Scanned)
    ensures r.length <= |s|
  {
    var n := DigitRun(s);
    if n < |s| && s[n] == DOT then
      var m := DigitRun(s[n + 1..]);
      if n + m == 0 then Scanned(0.0, 0)
      else Scanned(NatValue(s[..n]) as real + FracValue(s[n + 1..][..m]), n + 1 + m)
    else Scanned(NatValue(s[..n]) as real, n)
  }

  function Pow10(k: nat): (r: nat)
    ensures r > 0
  {
    if k == 0 then 1 else 10 * Pow10(k - 1)
  }

  /** x times ten to the power of e, or of -e. */
  function Scaled(x: real, e: nat, down: bool): real
  {
    if down then x / Pow10(e) as real else x * Pow10(e) as real
  }

  predicate IsSign(c: byte) { c == MINUS || c == PLUS }

  /** An exponent is a letter e, perhaps a sign, and digits; what falls short of that is none. */
  function ScanExponent(m: Scanned, s: bytes): (r: Scanned)
    requires m.length <= |s|
    ensures m.length <= r.length <= |s|
  {
    var t := s[m.length..];
    if t == [] || (t[0] != LOWER_E && t[0] != UPPER_E) then m
    else
      var k := if |t| > 1 && IsSign(t[1]) then 2 else 1;
      var n := DigitRun(t[k..]);
      if n == 0 then m
      else Scanned(Scaled(m.value, NatValue(t[k..][..n]), k == 2 && t[1] == MINUS), m.length + k + n)
  }

  function HexRun(s: bytes): (n: nat)
    ensures n <= |s|
  {
    if s == [] || !IsHex(s[0]) then 0 else 1 + HexRun(s[1..])
  }

  /** A marker and a hexadecimal digit behind it. */
  predicate StartsHex(s: bytes)
  {
    |s| > 2 && s[0] == ZERO && (s[1] == LOWER_X || s[1] == UPPER_X)
    && (IsHex(s[2]) || (|s| > 3 && s[2] == DOT && IsHex(s[3])))
  }

  /** strtod without a sign. Of hexadecimal notation only matters that it is taken: is_decimal refuses it. */
  function ScanMagnitude(s: bytes): (r: Scanned)
    ensures r.length <= |s|
  {
    if StartsHex(s) then Scanned(0.0, 3 + HexRun(s[3..]))
    else
      var m := ScanMantissa(s);
      if m.length == 0 then m else ScanExponent(m, s)
  }

  /** strtod on a minus or a digit: a lone minus consumes nothing. */
  function Scan(s: bytes): (r: Scanned)
    ensures r.length <= |s|
  {
    if s != [] && s[0] == MINUS then
      var m := ScanMagnitude(s[1..]);
      if m.length == 0 then Scanned(0.0, 0) else Scanned(-m.value, m.length + 1)
    else ScanMagnitude(s)
  }

  /** is_decimal: no superfluous leading zero and no hexadecimal marker. */
  predicate IsDecimal(t: bytes)
  {
    && !(|t| > 1 && t[0] == ZERO && t[1] != DOT)
    && !(|t| > 2 && t[0] == MINUS && t[1] == ZERO && t[2] != DOT)
    && forall i | 0 <= i < |t| :: t[i] != LOWER_X && t[i] != UPPER_X
  }

  method CheckDecimal(t: bytes) returns (ok: bool)
    ensures ok <==> IsDecimal(t)
  {
    if |t| > 1 && t[0] == ZERO && t[1] != DOT {
      return false;
    }
    if |t| > 2 && t[0] == MINUS && t[1] == ZERO && t[2] != DOT {
      return false;
    }
    var length: nat := |t|;
    while length > 0
      invariant length <= |t|
      invariant forall i | length <= i < |t| :: t[i] != LOWER_X && t[i] != UPPER_X
    {
      length := length - 1;
      if t[length] == LOWER_X || t[length] == UPPER_X {
        return false;
      }
    }
    return true;
  }

  // ------------------------------------------------------------------ reading back

  /** What a printed number reads back as. */
  function Printed(x: real): real
  {
    if IsMachineInteger(x) then x
    else
      var m := Micros(Magnitude(x)) as real / 1000000.0;
      if x < 0.0 then -m else m
  }

  lemma MicrosExactly(x: real)
    requires x >= 0.0
    ensures Micros(x) as real / 1000000.0 == x <==> IsInteger(x * 1000000.0)
  {
    var y := x * 1000000.0;
    if IsInteger(y) {
      assert Micros(x) == y.Floor;
    } else if Micros(x) as real / 1000000.0 == x {
      assert y == Micros(x) as real;
    }
  }

  lemma IntegerNegated(y: real)
    ensures IsInteger(-y) <==> IsInteger(y)
  {
    if IsInteger(y) {
      assert -y == (-y.Floor) as real;
    }
    if IsInteger(-y) {
      assert y == (-(-y).Floor) as real;
    }
  }

  lemma IntegerScaled(x: real)
    requires IsInteger(x)
    ensures IsInteger(x * 1000000.0)
  {
    var n := x.Floor;
    var y: real := (n * 1000000) as real;
    assert y == x * 1000000.0 by {
      ScaledInteger(n);
    }
    assert IsInteger(y);
  }

  lemma ScaledInteger(n: int)
    ensures (n * 1000000) as real == n as real * 1000000.0
  {
  }

  /** A number is restored exactly when it is a whole number of millionths. */
  lemma PrintedExactly(x: real)
    ensures Printed(x) == x <==> IsInteger(x * 1000000.0)
  {
    if IsMachineInteger(x) {
      IntegerScaled(x);
    } else {
      MicrosExactly(Magnitude(x));
      IntegerNegated(x * 1000000.0);
    }
  }

  /** A whole number of millionths, none of which is nearer to x; of two that are as near, the even one. */
  predicate Nearest(y: real, x: real)
  {
    && IsInteger(y * 1000000.0) && -0.0000005 <= y - x <= 0.0000005
    && (y - x == 0.0000005 || x - y == 0.0000005 ==> (y * 1000000.0).Floor % 2 == 0)
  }

  lemma MicrosNearest(x: real)
    requires x >= 0.0
    ensures var d := Micros(x) as real - x * 1000000.0;
            -0.5 <= d <= 0.5 && (d == 0.5 || d == -0.5 ==> Micros(x) % 2 == 0)
  {
  }

  lemma ScaledBack(k: int, x: real)
    requires var d := k as real - x * 1000000.0;
             -0.5 <= d <= 0.5 && (d == 0.5 || d == -0.5 ==> k % 2 == 0)
    ensures Nearest(k as real / 1000000.0, x)
  {
    var y := k as real / 1000000.0;
    assert y * 1000000.0 == k as real;
    assert (y - x) * 1000000.0 == k as real - x * 1000000.0;
  }

  /** What is printed of any number is the nearest whole number of millionths, ties to even. */
  lemma PrintedIsNearest(x: real)
    ensures Nearest(Printed(x), x)
  {
    if IsMachineInteger(x) {
      IntegerScaled(x);
    } else {
      hide Micros, Nearest;
      var k: int := Micros(Magnitude(x));
      MicrosNearest(Magnitude(x));
      if x < 0.0 {
        assert (-k) as real - x * 1000000.0 == -(k as real - Magnitude(x) * 1000000.0);
        ScaledBack(-k, x);
        assert (-k) as real / 1000000.0 == -(k as real / 1000000.0);
      } else {
        ScaledBack(k, x);
      }
    }
  }

  /** A number is printed with a decimal point exactly when it is no 32-bit integer, signed or unsigned. */
  lemma PointExactly(x: real)
    ensures DOT in NumberText(x) <==> !(x.Floor as real == x && -2147483648.0 <= x && x <= 4294967295.0)
  {
    if IsMachineInteger(x) {
      var t := NumberText(x);
      assert forall i | 0 <= i < |t| :: IsDigit(t[i]) || t[i] == MINUS;
    } else {
      var d := DecimalNat(Micros(Magnitude(x)) / 1000000);
      assert NumberText(x)[|Sign(x)| + |d|] == DOT;
    }
  }

  /** And then it has exactly six digits behind it. */
  lemma SixDecimals(x: real)
    requires DOT in NumberText(x)
    ensures var t := NumberText(x); |t| >= 8 && t[|t| - 7] == DOT && AllDigits(t[|t| - 6..])
  {
    hide Micros;
    PointExactly(x);
    var k := Micros(Magnitude(x));
    var t := NumberText(x);
    assert t[|t| - 6..] == SixDigits(k % 1000000);
  }

  /** What can follow a number without being taken for more of it. */
  predicate EndsNumber(rest: bytes)
  {
    rest == [] || (!IsDigit(rest[0]) && rest[0] !in [DOT, LOWER_E, UPPER_E, LOWER_X, UPPER_X])
  }

  lemma {:induction false} DigitRunOver(ds: bytes, rest: bytes)
    requires AllDigits(ds) && (rest == [] || !IsDigit(rest[0]))
    ensures DigitRun(ds + rest) == |ds|
  {
    if ds == [] {
      assert ds + rest == rest;
    } else {
      assert (ds + rest)[1..] == ds[1..] + rest;
      DigitRunOver(ds[1..], rest);
    }
  }

  lemma {:induction false} NatValueOfDecimal(n: nat)
    ensures NatValue(DecimalNat(n)) == n
  {
    if n >= 10 {
      NatValueOfDecimal(n / 10);
      var ds := DecimalNat(n);
      assert ds[..|ds| - 1] == DecimalNat(n / 10);
    }
  }

  lemma {:induction false} DecimalLength(n: nat, k: nat)
    requires k >= 1 && n < Pow10(k)
    ensures |DecimalNat(n)| <= k
  {
    if n >= 10 {
      assert k > 1;
      DecimalLength(n / 10, k - 1);
    }
  }

  lemma IntLength(n: int)
    requires -10000000000 < n < 10000000000
    ensures |Decimal(n)| <= 11
  {
    assert Pow10(5) == 100000 by {
      assert Pow10(3) == 1000;
    }
    assert Pow10(8) == 100000000 by {
      assert Pow10(6) == 1000000;
    }
    assert Pow10(10) == 10000000000;
    DecimalLength(if n < 0 then -n else n, 10);
  }

  lemma FracValueStep(d: byte, ds: bytes)
    requires IsDigit(d) && AllDigits(ds)
    ensures AllDigits([d] + ds) && FracValue([d] + ds) == ((d - ZERO) as real + FracValue(ds)) / 10.0
  {
    assert ([d] + ds)[1..] == ds;
  }

  lemma SixDigitsSum(k: nat)
    requires k < 1000000
    ensures k == k / 100000 * 100000 + k / 10000 % 10 * 10000 + k / 1000 % 10 * 1000 + k / 100 % 10 * 100
            + k / 10 % 10 * 10 + k % 10
  {
    assert k / 10000 / 10 == k / 100000 && k / 1000 / 10 == k / 10000 && k / 100 / 10 == k / 1000
           && k / 10 / 10 == k / 100;
  }

  lemma FracValueOfDigits(a: byte, b: byte, c: byte, d: byte, e: byte, f: byte)
    requires AllDigits([a, b, c, d, e, f])
    ensures FracValue([a, b, c, d, e, f])
         == ((a - ZERO) * 100000 + (b - ZERO) * 10000 + (c - ZERO) * 1000 + (d - ZERO) * 100 + (e - ZERO) * 10
             + (f - ZERO)) as real / 1000000.0
  {
    var s: bytes := [a, b, c, d, e, f];
    assert s[0] == a && s[1] == b && s[2] == c && s[3] == d && s[4] == e && s[5] == f;
    FracValueStep(f, []);
    FracValueStep(e, [f]);
    FracValueStep(d, [e, f]);
    FracValueStep(c, [d, e, f]);
    FracValueStep(b, [c, d, e, f]);
    FracValueStep(a, [b, c, d, e, f]);
    assert [e] + [f] == [e, f] && [d] + [e, f] == [d, e, f] && [c] + [d, e, f] == [c, d, e, f];
    assert [b] + [c, d, e, f] == [b, c, d, e, f] && [a] + [b, c, d, e, f] == s;
  }

  /** Behind the point, the digits of k / 10^n stand for k / 10^n. */
  lemma FracValueOfSix(k: nat)
    requires k < 1000000
    ensures FracValue(SixDigits(k)) == k as real / 1000000.0
  {
    hide FracValue, AllDigits;
    var s := SixDigits(k);
    FracValueOfDigits(s[0], s[1], s[2], s[3], s[4], s[5]);
    assert s == [s[0], s[1], s[2], s[3], s[4], s[5]];
    SixDigitsSum(k);
  }

  lemma ScanDigits(d: bytes, rest: bytes)
    requires AllDigits(d) && (rest == [] || (!IsDigit(rest[0]) && rest[0] != DOT))
    ensures ScanMantissa(d + rest) == Scanned(NatValue(d) as real, |d|)
  {
    DigitRunOver(d, rest);
    assert (d + rest)[..|d|] == d;
  }

  lemma ScanInteger(n: nat, rest: bytes)
    requires EndsNumber(rest)
    ensures ScanMantissa(DecimalNat(n) + rest) == Scanned(n as real, |DecimalNat(n)|)
  {
    ScanDigits(DecimalNat(n), rest);
    NatValueOfDecimal(n);
  }

  lemma ScanFixed(k: nat, rest: bytes)
    requires EndsNumber(rest)
    ensures ScanMantissa(FixedText(k) + rest) == Scanned(k as real / 1000000.0, |FixedText(k)|)
  {
    var d, f := DecimalNat(k / 1000000), SixDigits(k % 1000000);
    ScanPointed(d, f, rest);
    NatValueOfDecimal(k / 1000000);
    FracValueOfSix(k % 1000000);
    AddMillionths(k);
  }

  lemma ScanPointed(d: bytes, f: bytes, rest: bytes)
    requires |d| + |f| > 0 && AllDigits(d) && AllDigits(f) && (rest == [] || !IsDigit(rest[0]))
    ensures ScanMantissa(d + [DOT] + f + rest) == Scanned(NatValue(d) as real + FracValue(f), |d| + 1 + |f|)
  {
    hide *;
    RunsOfPointed(d, f, rest);
    MantissaAt(d + [DOT] + f + rest, d, f);
  }

  lemma MantissaAt(s: bytes, d: bytes, f: bytes)
    requires AllDigits(d) && AllDigits(f) && |d| + |f| > 0
    requires DigitRun(s) == |d| < |s| && s[|d|] == DOT && s[..|d|] == d
    requires DigitRun(s[|d| + 1..]) == |f| <= |s| - |d| - 1 && s[|d| + 1..][..|f|] == f
    ensures ScanMantissa(s) == Scanned(NatValue(d) as real + FracValue(f), |d| + 1 + |f|)
  {
    hide NatValue, FracValue, DigitRun;
  }

  lemma RunsOfPointed(d: bytes, f: bytes, rest: bytes)
    requires AllDigits(d) && AllDigits(f) && (rest == [] || !IsDigit(rest[0]))
    ensures var s := d + [DOT] + f + rest;
            && DigitRun(s) == |d| < |s| && s[|d|] == DOT && s[..|d|] == d
            && DigitRun(s[|d| + 1..]) == |f| <= |s| - |d| - 1 && s[|d| + 1..][..|f|] == f
  {
    CutPointed(d, f, rest);
    DigitRunOver(d, [DOT] + f + rest);
    DigitRunOver(f, rest);
  }

  lemma CutPointed(d: bytes, f: bytes, rest: bytes)
    ensures var s := d + [DOT] + f + rest;
            && s == d + ([DOT] + f + rest) && s[..|d|] == d && s[|d|] == DOT
            && s[|d| + 1..] == f + rest && (f + rest)[..|f|] == f
  {
  }

  lemma AddMillionths(k: nat)
    ensures (k / 1000000) as real + (k % 1000000) as real / 1000000.0 == k as real / 1000000.0
  {
    assert k == k / 1000000 * 1000000 + k % 1000000;
  }

  /** A printed magnitude is followed by no exponent and is no marker of hexadecimal notation. */
  lemma MantissaIsAll(m: bytes, value: real, rest: bytes)
    requires |m| > 0 && (forall i | 0 <= i < |m| :: IsDigit(m[i]) || m[i] == DOT) && EndsNumber(rest)
    requires ScanMantissa(m + rest) == Scanned(value, |m|)
    ensures ScanMagnitude(m + rest) == Scanned(value, |m|)
  {
    hide ScanMantissa;
    var s := m + rest;
    assert |s| > 1 ==> s[1] == if |m| > 1 then m[1] else rest[0];
    assert s[|m|..] == rest;
  }

  lemma ScanSigned(m: bytes, value: real, rest: bytes)
    requires |m| > 0 && m[0] != MINUS && ScanMagnitude(m + rest) == Scanned(value, |m|)
    ensures Scan(m + rest) == Scanned(value, |m|)
    ensures Scan([MINUS] + m + rest) == Scanned(-value, |m| + 1)
  {
    hide ScanMagnitude;
    assert ([MINUS] + m + rest)[1..] == m + rest;
  }

  lemma DecimalEitherSign(m: bytes)
    requires |m| > 0 && forall i | 0 <= i < |m| :: IsDigit(m[i]) || m[i] == DOT
    requires |m| > 1 && m[0] == ZERO ==> m[1] == DOT
    ensures IsDecimal(m) && IsDecimal([MINUS] + m)
  {
    var t := [MINUS] + m;
    assert forall i | 1 <= i < |t| :: t[i] == m[i - 1];
  }

  lemma DecimalTexts(n: nat)
    ensures IsDecimal(DecimalNat(n)) && IsDecimal([MINUS] + DecimalNat(n))
    ensures IsDecimal(FixedText(n)) && IsDecimal([MINUS] + FixedText(n))
  {
    DecimalEitherSign(DecimalNat(n));
    PointedDigits(DecimalNat(n / 1000000), SixDigits(n % 1000000));
    DecimalEitherSign(FixedText(n));
  }

  lemma PointedDigits(d: bytes, f: bytes)
    requires |d| >= 1 && AllDigits(d) && AllDigits(f) && (d[0] == ZERO ==> |d| == 1)
    ensures var t := d + [DOT] + f;
            && (forall i | 0 <= i < |t| :: IsDigit(t[i]) || t[i] == DOT)
            && (|t| > 1 && t[0] == ZERO ==> t[1] == DOT)
  {
  }

  /** The scanner reads a printed number to its end, and is_decimal lets it pass. */
  lemma ScanNumberText(x: real, rest: bytes)
    requires EndsNumber(rest)
    ensures Scan(NumberText(x) + rest) == Scanned(Printed(x), |NumberText(x)|)
    ensures IsDecimal(NumberText(x))
  {
    hide Scan, ScanMagnitude, ScanMantissa, IsDecimal, Micros;
    if IsMachineInteger(x) {
      var n := if x < 0.0 then -x.Floor else x.Floor;
      ScanInteger(n, rest);
      MantissaIsAll(DecimalNat(n), n as real, rest);
      ScanSigned(DecimalNat(n), n as real, rest);
      DecimalTexts(n);
    } else {
      var k := Micros(Magnitude(x));
      ScanFixed(k, rest);
      PointedDigits(DecimalNat(k / 1000000), SixDigits(k % 1000000));
      MantissaIsAll(FixedText(k), k as real / 1000000.0, rest);
      ScanSigned(FixedText(k), k as real / 1000000.0, rest);
      DecimalTexts(k);
      assert [] + FixedText(k) == FixedText(k);
    }
  }

  // ------------------------------------------------------------------ the scratch buffer

  const NUM_BUF_SIZE: nat := 1100

  lemma MicrosBound(x: real, n: nat)
    requires 0.0 <= x < n as real
    ensures Micros(x) <= n * 1000000
  {
    var y := x * 1000000.0;
    assert y < n as real * 1000000.0 == (n * 1000000) as real;
    assert y.Floor < n * 1000000;
  }

  lemma NumberTextLength(x: real, k: nat)
    requires k >= 10 && Magnitude(x) < Pow10(k) as real
    ensures |NumberText(x)| <= k + 9
  {
    if IsMachineInteger(x) {
      assert -10000000000 < x.Floor < 10000000000;
      IntLength(x.Floor);
    } else {
      var m := Micros(Magnitude(x));
      MicrosBound(Magnitude(x), Pow10(k));
      assert m / 1000000 <= Pow10(k) < Pow10(k + 1);
      DecimalLength(m / 1000000, k + 1);
    }
  }

  /** Every number below 10^309, and so every double, is printed within the scratch buffer. */
  lemma NumberFitsScratch(x: real)
    requires Magnitude(x) < Pow10(309) as real
    ensures |NumberText(x)| + 1 <= NUM_BUF_SIZE
  {
    NumberTextLength(x, 309);
  }

  /** A printed number starts with a minus or a digit, never with white space. */
  lemma NumberHead(x: real)
    ensures NumberText(x)[0] == MINUS || IsDigit(NumberText(x)[0])
  {
  }
}
