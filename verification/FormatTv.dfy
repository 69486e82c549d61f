/**
 Time formatting with limited precision, util/format_tv.c.
 Machine integers are modelled as mathematical integers.
 */
module FormatTv {
  import opened Wrappers

  const MILLION: nat := 1000000
  const POINT: byte := 46 // '.'

  // -------------------------------------------------------------- powers of ten

  /** pow10[k] */
  function Pow10(k: nat): (p: nat)
    requires k <= 6
    ensures IsPower(p)
  {
    if k == 0 then 1 else if k == 1 then 10 else if k == 2 then 100 else if k == 3 then 1000
    else if k == 4 then 10000 else if k == 5 then 100000 else 1000000
  }

  /** A power of ten that divides a million. */
  predicate IsPower(p: nat)
  {
    p == 1 || p == 10 || p == 100 || p == 1000 || p == 10000 || p == 100000 || p == 1000000
  }

  /** The decimals of a resolution: 10 to the power of minus this many seconds. */
  function Decimals(u: nat): nat
    requires IsPower(u)
  {
    if u == 1 then 6 else if u == 10 then 5 else if u == 100 then 4 else if u == 1000 then 3
    else if u == 10000 then 2 else if u == 100000 then 1 else 0
  }

  // ---------------------------------------------------------------- resolution

  /** The least power of ten above `sec`, but at most `wid`: the for loop. */
  function Scale(sec: nat, wid: nat, n: nat): nat
    requires IsPower(wid) && IsPower(n) && n <= wid
    decreases wid - n
  {
    if sec >= n && n <= wid / 10 then Scale(sec, wid, 10 * n) else n
  }

  /** The least of ures, 10 ures, 100 ures, ... that leaves fewer than wid units: the while loop. */
  function Coarsen(usec: nat, wid: nat, ures: nat): nat
    requires IsPower(wid) && wid > 1 && IsPower(ures) && usec <= MILLION
    decreases MILLION - ures
  {
    if usec >= wid * ures then
      CoarsenMore(usec, wid, ures);
      Coarsen(usec, wid, 10 * ures)
    else ures
  }

  lemma CoarsenMore(usec: nat, wid: nat, ures: nat)
    requires IsPower(wid) && wid > 1 && IsPower(ures) && usec <= MILLION && usec >= wid * ures
    ensures IsPower(10 * ures)
  {
    assert wid * ures >= 10 * ures;
  }

  /** The resolution, in microseconds. */
  function Resolution(sec: nat, usec: nat, sig: nat, max: nat): nat
    requires usec <= MILLION && 1 <= sig <= 6 && max <= 6
  {
    if max == 0 then MILLION
    else if sec > 0 then MILLION / Pow10(sig) * Scale(sec, Pow10(sig), 1)
    else Coarsen(usec, Pow10(sig), MILLION / Pow10(max))
  }

  lemma {:induction false} ScaleIs(sec: nat, wid: nat, n: nat)
    requires IsPower(wid) && IsPower(n) && n <= wid && sec > 0 && 10 * sec >= n
    ensures var s := Scale(sec, wid, n);
            IsPower(s) && s <= wid && (s < wid ==> sec < s) && (s > n ==> s <= 10 * sec) && s >= n
    decreases wid - n
  {
    if sec >= n && n <= wid / 10 {
      ScaleIs(sec, wid, 10 * n);
    }
  }

  lemma {:induction false} CoarsenIs(usec: nat, wid: nat, ures: nat)
    requires IsPower(wid) && wid > 1 && IsPower(ures) && usec <= MILLION
    ensures var u := Coarsen(usec, wid, ures);
            IsPower(u) && u >= ures && usec < wid * u && (u > ures ==> 10 * usec >= wid * u)
    decreases MILLION - ures
  {
    if usec >= wid * ures {
      CoarsenMore(usec, wid, ures);
      CoarsenIs(usec, wid, 10 * ures);
      assert wid * (10 * ures) == 10 * (wid * ures);
    }
  }

  /** The resolution is a power of ten that divides a million, and it is one microsecond only if there is no carry. */
  lemma ResolutionIsPower(sec: nat, usec: nat, sig: nat, max: nat)
    requires usec <= MILLION && 1 <= sig <= 6 && max <= 6
    ensures var u := Resolution(sec, usec, sig, max); IsPower(u) && (u == 1 ==> usec < MILLION)
  {
    if max > 0 && sec > 0 {
      ScaleIs(sec, Pow10(sig), 1);
      ScaleProduct(sig, Scale(sec, Pow10(sig), 1));
      assert Scale(sec, Pow10(sig), 1) >= 10;
    } else if max > 0 {
      CoarsenIs(usec, Pow10(sig), MILLION / Pow10(max));
    }
  }

  lemma ScaleProduct(sig: nat, s: nat)
    requires 1 <= sig <= 6 && IsPower(s) && s <= Pow10(sig)
    ensures IsPower(MILLION / Pow10(sig) * s)
  {
    if sig == 1 { } else if sig == 2 { } else if sig == 3 { } else if sig == 4 { } else if sig == 5 { } else { }
  }

  // ------------------------------------------------------------------- rounding

  /** t, rounded half up to a multiple of u. */
  function RoundHalfUp(t: nat, u: nat): nat
    requires u > 0
  {
    (t + u / 2) / u * u
  }

  /** What the digits after the point are worth, if the first of them counts n units. */
  function FractionValue(ds: seq<byte>, n: nat): nat
    requires AllDigits(ds)
  {
    if ds == [] then 0 else (ds[0] - 48) * n + FractionValue(ds[1..], n / 10)
  }

  /** n / 10 / 10 ..., k times. */
  function Shifted(n: nat, k: nat): nat
  {
    if k == 0 then n else Shifted(n / 10, k - 1)
  }

  lemma {:induction false} ShiftedMore(n: nat, k: nat)
    ensures Shifted(n, k + 1) == Shifted(n, k) / 10
    decreases k
  {
    if k > 0 {
      ShiftedMore(n / 10, k - 1);
    }
  }

  lemma {:induction false} FractionAppend(ds: seq<byte>, d: byte, n: nat)
    requires AllDigits(ds) && 48 <= d <= 57
    ensures AllDigits(ds + [d]) && FractionValue(ds + [d], n) == FractionValue(ds, n) + (d - 48) * Shifted(n, |ds|)
    decreases |ds|
  {
    if ds == [] {
      assert ([] + [d])[1..] == [];
    } else {
      assert (ds + [d])[1..] == ds[1..] + [d];
      FractionAppend(ds[1..], d, n / 10);
    }
  }

  // ------------------------------------------------------------------ formatting

  /** What is printed after the seconds for a fraction: nothing, or a point and digits of which the last is not zero. */
  ghost predicate IsFraction(out: seq<byte>, frac: nat)
  {
    if out == [] then frac == 0
    else
      && out[0] == POINT && 2 <= |out| <= 7 && AllDigits(out[1..]) && out[|out| - 1] != 48
      && FractionValue(out[1..], MILLION / 10) == frac
  }

  /** The last k digits of f. */
  function Exact(f: nat, k: nat): (ds: seq<byte>)
    ensures AllDigits(ds) && |ds| == k
  {
    if k == 0 then [] else Exact(f / 10, k - 1) + [48 + f % 10]
  }

  /** The last k digits of f, without zeros at the end. */
  function Trimmed(f: nat, k: nat): (ds: seq<byte>)
    ensures AllDigits(ds)
  {
    if k == 0 then [] else if f % 10 == 0 then Trimmed(f / 10, k - 1) else Exact(f, k)
  }

  /** What is printed after the seconds. */
  function FractionOf(frac: nat): seq<byte>
  {
    if frac == 0 then [] else [POINT] + Trimmed(frac, 6)
  }

  /** f has no more than k digits. */
  predicate Short(f: nat, k: nat)
  {
    if k == 0 then f == 0 else Short(f / 10, k - 1)
  }

  /** v with j zeros written after it. */
  function Zeros(v: nat, j: nat): nat
    decreases j
  {
    if j == 0 then v else Zeros(10 * v, j - 1)
  }

  lemma {:induction false} ZerosAdd(a: nat, b: nat, j: nat)
    ensures Zeros(a, j) + Zeros(b, j) == Zeros(a + b, j)
    decreases j
  {
    if j > 0 { ZerosAdd(10 * a, 10 * b, j - 1); }
  }

  /** The digit of place k counts as many units as there are places after it. */
  lemma ZerosShifted(d: nat, k: nat)
    requires k < 6
    ensures d * Shifted(MILLION / 10, k) == Zeros(d, 5 - k)
  {
    ShiftedPlace(k);
    if k == 0 {
      assert Zeros(d, 5) == Zeros(10 * d, 4) == Zeros(100 * d, 3) == Zeros(1000 * d, 2) == Zeros(10000 * d, 1);
    } else if k == 1 {
      assert Zeros(d, 4) == Zeros(10 * d, 3) == Zeros(100 * d, 2) == Zeros(1000 * d, 1);
    } else if k == 2 {
      assert Zeros(d, 3) == Zeros(10 * d, 2) == Zeros(100 * d, 1);
    }
  }

  lemma ShiftedPlace(k: nat)
    requires k <= 6
    ensures IsPlace(Shifted(MILLION / 10, k), k)
  {
    assert Shifted(100000, 0) == 100000;
    ShiftedMore(100000, 0);
    ShiftedMore(100000, 1);
    ShiftedMore(100000, 2);
    ShiftedMore(100000, 3);
    ShiftedMore(100000, 4);
    ShiftedMore(100000, 5);
  }

  /** One digit more. */
  lemma ValueMore(ds: seq<byte>, v: nat, d: nat)
    requires AllDigits(ds) && d <= 9 && |ds| < 6 && FractionValue(ds, MILLION / 10) == Zeros(v, 6 - |ds|)
    ensures AllDigits(ds + [48 + d]) && FractionValue(ds + [48 + d], MILLION / 10) == Zeros(10 * v + d, 5 - |ds|)
  {
    FractionAppend(ds, 48 + d, MILLION / 10);
    ZerosShifted(d, |ds|);
    ZerosAdd(10 * v, d, 5 - |ds|);
  }

  lemma {:induction false} ExactValue(f: nat, k: nat)
    requires Short(f, k) && k <= 6
    ensures FractionValue(Exact(f, k), MILLION / 10) == Zeros(f, 6 - k)
    decreases k
  {
    if k > 0 {
      ExactValue(f / 10, k - 1);
      ValueMore(Exact(f / 10, k - 1), f / 10, f % 10);
    } else {
      assert Zeros(0, 6) == Zeros(0, 4) == Zeros(0, 2) == 0;
    }
  }

  lemma {:induction false} TrimmedValue(f: nat, k: nat)
    requires Short(f, k) && k <= 6
    ensures FractionValue(Trimmed(f, k), MILLION / 10) == Zeros(f, 6 - k) && |Trimmed(f, k)| <= k
    ensures f > 0 ==> Trimmed(f, k) != [] && Trimmed(f, k)[|Trimmed(f, k)| - 1] != 48
    decreases k
  {
    ExactValue(f, k);
    if k > 0 && f % 10 == 0 {
      TrimmedValue(f / 10, k - 1);
    }
  }

  /** The number that digits spell. */
  function Number(ds: seq<byte>): nat
    requires AllDigits(ds)
  {
    if ds == [] then 0 else 10 * Number(ds[..|ds| - 1]) + (ds[|ds| - 1] - 48)
  }

  lemma {:induction false} ExactNumber(ds: seq<byte>)
    requires AllDigits(ds)
    ensures Exact(Number(ds), |ds|) == ds
    decreases |ds|
  {
    if ds != [] {
      var k := |ds| - 1;
      ExactNumber(ds[..k]);
      LastDigit(Number(ds[..k]), ds[k] - 48);
      assert ds == ds[..k] + [ds[k]];
    }
  }

  lemma LastDigit(n: nat, d: nat)
    requires d <= 9
    ensures (10 * n + d) / 10 == n && (10 * n + d) % 10 == d
  {
  }

  lemma {:induction false} NumberValue(ds: seq<byte>)
    requires AllDigits(ds) && |ds| <= 6
    ensures FractionValue(ds, MILLION / 10) == Zeros(Number(ds), 6 - |ds|)
    decreases |ds|
  {
    if ds == [] {
      ExactValue(0, 0);
    } else {
      var init, d := ds[..|ds| - 1], ds[|ds| - 1];
      NumberValue(init);
      ValueMore(init, Number(init), d - 48);
      assert ds == init + [d];
    }
  }

  lemma {:induction false} TrimmedZeros(v: nat, j: nat, k: nat)
    ensures Trimmed(Zeros(v, j), k + j) == Trimmed(v, k)
    decreases j
  {
    if j > 0 {
      TrimmedZeros(10 * v, j - 1, k + 1);
      assert 10 * v % 10 == 0 && 10 * v / 10 == v;
    }
  }

  lemma FractionIs(frac: nat)
    requires frac < MILLION
    ensures IsFraction(FractionOf(frac), frac)
  {
    if frac > 0 {
      assert Short(frac, 6) by { ShortMillion(frac); }
      TrimmedValue(frac, 6);
      assert FractionOf(frac)[1..] == Trimmed(frac, 6);
    }
  }

  lemma ShortMillion(f: nat)
    requires f < MILLION
    ensures Short(f, 6)
  {
    var a := f / 10;
    var b := a / 10;
    var c := b / 10;
    var d := c / 10;
    var e := d / 10;
    assert Short(e, 1) && Short(d, 2) && Short(c, 3) && Short(b, 4) && Short(a, 5);
  }

  /** There is exactly one way to print a fraction. */
  lemma FractionUnique(out: seq<byte>, frac: nat)
    requires frac < MILLION
    ensures IsFraction(out, frac) <==> out == FractionOf(frac)
  {
    FractionIs(frac);
    if IsFraction(out, frac) && out != [] {
      DigitsUnique(out[1..]);
      assert out == [POINT] + out[1..];
    }
  }

  lemma DigitsUnique(ds: seq<byte>)
    requires AllDigits(ds) && 1 <= |ds| <= 6 && ds[|ds| - 1] != 48
    ensures var frac := FractionValue(ds, MILLION / 10); frac > 0 && ds == Trimmed(frac, 6)
  {
    var k, v := |ds|, Number(ds);
    NumberValue(ds);
    ExactNumber(ds);
    TrimmedZeros(v, 6 - k, k);
    ZerosPositive(v, 6 - k);
  }

  lemma {:induction false} ZerosPositive(v: nat, j: nat)
    requires v > 0
    ensures Zeros(v, j) > 0
    decreases j
  {
    if j > 0 { ZerosPositive(10 * v, j - 1); }
  }

  lemma Gap(m: nat, k: nat, u: nat)
    requires m < k
    ensures m * u + u <= k * u
  {
    var d: nat := k - m - 1;
    assert (m + 1 + d) * u == m * u + u + d * u;
  }

  /** Division with remainder is unique. */
  lemma DivMod(x: nat, m: nat, u: nat, rem: nat)
    requires rem < u && x == m * u + rem
    ensures x / u == m && x % u == rem
  {
    var k := x / u;
    assert x == u * k + x % u && u * k == k * u;
    if m < k {
      Gap(m, k, u);
    } else if k < m {
      Gap(k, m, u);
    }
  }

  /** A power of ten divides a larger one. */
  lemma PowerDivides(n: nat, u: nat)
    requires IsPower(n) && IsPower(u) && u < 10 * n
    ensures n == n / u * u && n >= u
  {
  }

  /** One digit more, in units of the resolution. */
  lemma MoreUnits(q: nat, u: nat, d: nat, n: nat)
    requires u > 0 && n == n / u * u
    ensures q * u + d * n == (q + d * (n / u)) * u
  {
    var k := n / u;
    assert d * (k * u) == d * k * u;
  }

  lemma Digit(rem: nat, n: nat)
    requires IsPower(n) && rem < 10 * n
    ensures 0 <= rem / n <= 9 && rem == rem / n * n + rem % n && rem % n < n && (rem / n == 0 ==> rem % n == rem)
  {
    if n == 1 { } else if n == 10 { } else if n == 100 { } else if n == 1000 { } else if n == 10000 { }
    else if n == 100000 { } else { }
  }

  /** One round of the loop below, which prints d. */
  lemma DigitStep(ds: seq<byte>, d: nat, n: nat, q: nat, u: nat)
    requires AllDigits(ds) && d <= 9 && IsPower(n) && n == Shifted(MILLION / 10, |ds|) && IsPower(u) && u < 10 * n
    requires FractionValue(ds, MILLION / 10) == q * u
    ensures var q' := q + d * (n / u);
            AllDigits(ds + [48 + d]) && FractionValue(ds + [48 + d], MILLION / 10) == q' * u && q' * u == q * u + d * n
    ensures n / 10 == Shifted(MILLION / 10, |ds| + 1)
  {
    PowerDivides(n, u);
    MoreUnits(q, u, d, n);
    FractionAppend(ds, 48 + d, MILLION / 10);
    ShiftedMore(MILLION / 10, |ds|);
  }

  /** A digit is only printed in a place that the resolution reaches. */
  lemma PlaceLimit(n: nat, k: nat, u: nat)
    requires IsPlace(n, k) && IsPower(n) && IsPower(u) && u <= n
    ensures k + 1 <= Decimals(u)
  {
  }

  /** A divisor that is left after |ds| digits. */
  predicate IsPlace(n: nat, k: nat)
  {
    if k == 0 then n == 100000 else if k == 1 then n == 10000 else if k == 2 then n == 1000
    else if k == 3 then n == 100 else if k == 4 then n == 10 else if k == 5 then n == 1 else k == 6 && n == 0
  }

  /** While digits are printed: `ds` are printed, worth q units of the resolution, and `rem` is left for place n. */
  ghost predicate Printing(usec: nat, u: nat, ds: seq<byte>, rem: nat, n: nat, q: nat)
  {
    && IsPower(u) && AllDigits(ds) && IsPlace(n, |ds|) && n == Shifted(MILLION / 10, |ds|) && |ds| <= Decimals(u)
    && (if n > 0 then rem < 10 * n else rem == 0)
    && FractionValue(ds, MILLION / 10) == q * u && usec == q * u + rem
    && (rem < u ==> ds != [] && ds[|ds| - 1] != 48)
  }

  lemma PrintDigit(usec: nat, u: nat, ds: seq<byte>, rem: nat, n: nat, q: nat) returns (q': nat)
    requires Printing(usec, u, ds, rem, n, q) && rem >= u && n > 0
    ensures 0 <= rem / n <= 9 && Printing(usec, u, ds + [48 + rem / n], rem % n, n / 10, q')
  {
    q' := q + rem / n * (n / u);
    Digit(rem, n);
    PowerDivides(n, u);
    PlaceLimit(n, |ds|, u);
    DigitStep(ds, rem / n, n, q, u);
  }

  /** The loop that prints digits until only thrash below the resolution is left. */
  method Digits(usec: nat, ures: nat) returns (out: seq<byte>, ghost q: nat)
    requires ures <= usec < MILLION && IsPower(ures)
    ensures q * ures <= usec < q * ures + ures && IsFraction(out, q * ures) && |out| <= 1 + Decimals(ures)
  {
    var ds: seq<byte> := [];
    var rem: nat, n: nat := usec, MILLION / 10;
    q := 0;
    while rem >= ures && n > 0
      invariant Printing(usec, ures, ds, rem, n, q)
      decreases n
    {
      q := PrintDigit(usec, ures, ds, rem, n, q);
      ds := ds + [48 + rem / n];
      rem := rem % n;
      n := n / 10;
    }
    out := [POINT] + ds;
    PrintedAll(usec, ures, ds, rem, n, q);
  }

  lemma PrintedAll(usec: nat, u: nat, ds: seq<byte>, rem: nat, n: nat, q: nat)
    requires Printing(usec, u, ds, rem, n, q) && (rem < u || n == 0)
    ensures q * u <= usec < q * u + u && IsFraction([POINT] + ds, q * u) && |ds| <= Decimals(u)
  {
    assert ([POINT] + ds)[1..] == ds;
  }

  lemma Multiple(sec: nat, q: nat, u: nat)
    requires IsPower(u)
    ensures (sec * (MILLION / u) + q) * u == sec * MILLION + q * u
  {
    PowerDivides(MILLION, u);
    var k := MILLION / u;
    assert sec * (k * u) == sec * k * u;
  }

  /** Rounding the microseconds, with a carry into the seconds, is rounding the time. */
  lemma RoundSplit(t: nat, u: nat, sec: nat, q: nat, rem: nat)
    requires IsPower(u) && rem < u && t + u / 2 == sec * MILLION + q * u + rem && q * u < MILLION
    ensures RoundHalfUp(t, u) == sec * MILLION + q * u
    ensures RoundHalfUp(t, u) / MILLION == sec && RoundHalfUp(t, u) % MILLION == q * u
  {
    var m := sec * (MILLION / u) + q;
    Multiple(sec, q, u);
    DivMod(t + u / 2, m, u, rem);
    var f := q * u;
    assert RoundHalfUp(t, u) == sec * MILLION + f;
  }

  /** The two loops that adjust the resolution. */
  method Resolve(sec: nat, usec: nat, sig: nat, max: nat) returns (ures: nat)
    requires usec <= MILLION && 1 <= sig <= 6 && max <= 6
    ensures ures == Resolution(sec, usec, sig, max)
  {
    ures := MILLION / Pow10(max);
    var wid := Pow10(sig);
    if ures < MILLION {
      if sec > 0 {
        var n := 1;
        while sec >= n && n <= wid / 10
          invariant IsPower(n) && n <= wid && Scale(sec, wid, n) == Scale(sec, wid, 1)
          decreases wid - n
        {
          n := n * 10;
        }
        ures := MILLION / wid * n;
      } else {
        ghost var u0 := ures;
        while usec >= wid * ures
          invariant IsPower(ures) && Coarsen(usec, wid, ures) == Coarsen(usec, wid, u0)
          decreases MILLION - ures
        {
          CoarsenMore(usec, wid, ures);
          ures := ures * 10;
        }
      }
    }
  }

  /** Half a unit is added, with a carry into the seconds. */
  method AddHalf(sec: nat, usec: nat, ures: nat) returns (s: nat, us: nat)
    requires usec <= MILLION && IsPower(ures) && (ures == 1 ==> usec < MILLION)
    ensures s * MILLION + us == sec * MILLION + usec + ures / 2 && us < MILLION
  {
    s, us := sec, usec;
    if ures > 1 {
      us := us + ures / 2;
      if us >= MILLION {
        s := s + 1;
        us := us - MILLION;
      }
    }
  }

  /** format_tv: the time, rounded half up to a multiple of the resolution, is appended. */
  method Format(buf: seq<byte>, sec: nat, usec: nat, sig: nat, max: nat) returns (r: seq<byte>)
    requires usec <= MILLION && 1 <= sig <= 6 && max <= 6
    ensures var t := Rounded(sec, usec, sig, max);
            r == buf + Decimal(t / MILLION) + FractionOf(t % MILLION)
            && IsFraction(FractionOf(t % MILLION), t % MILLION)
  {
    var ures := Resolve(sec, usec, sig, max);
    ResolutionIsPower(sec, usec, sig, max);
    var s, us := AddHalf(sec, usec, ures);
    ghost var q, fraction;
    r, q, fraction := FormatRounded(buf, s, us, ures);
    RoundSplit(sec * MILLION + usec, ures, s, q, us - q * ures);
    FractionUnique(fraction, q * ures);
  }

  /** The seconds, and the microseconds cut to the resolution. */
  method FormatRounded(buf: seq<byte>, sec: nat, usec: nat, ures: nat)
      returns (r: seq<byte>, ghost q: nat, ghost fraction: seq<byte>)
    requires usec < MILLION && IsPower(ures)
    ensures q * ures <= usec < q * ures + ures && IsFraction(fraction, q * ures) && |fraction| <= 1 + Decimals(ures)
    ensures r == buf + Decimal(sec) + fraction
  {
    r, q, fraction := buf + Decimal(sec), 0, [];
    if usec >= ures {
      var out;
      out, q := Digits(usec, ures);
      r := r + out;
      fraction := out;
    }
  }

  // --------------------------------------------------------------- digit limits

  /** The number of digits of the seconds, of which six are enough to know. */
  function SecondDigits(sec: nat): nat
  {
    if sec < 10 then 1 else if sec < 100 then 2 else if sec < 1000 then 3 else if sec < 10000 then 4
    else if sec < 100000 then 5 else 6
  }

  /** Seconds, if there are any, leave as many decimals as significant digits, and the limit on decimals is not used. */
  lemma DecimalsWithSeconds(sec: nat, usec: nat, sig: nat, max: nat)
    requires usec <= MILLION && 1 <= sig <= 6 && 1 <= max <= 6 && sec > 0
    ensures IsPower(Resolution(sec, usec, sig, max))
    ensures Decimals(Resolution(sec, usec, sig, max)) == if sig > SecondDigits(sec) then sig - SecondDigits(sec) else 0
  {
    ResolutionIsPower(sec, usec, sig, max);
    ScaleIs(sec, Pow10(sig), 1);
    if sig == 1 { } else if sig == 2 { } else if sig == 3 { } else if sig == 4 { } else if sig == 5 { } else { }
  }

  lemma {:induction false} CoarsenIsFinest(usec: nat, wid: nat, ures: nat, v: nat)
    requires IsPower(wid) && wid > 1 && IsPower(ures) && usec <= MILLION
    requires IsPower(v) && v >= ures && usec < wid * v
    ensures v >= Coarsen(usec, wid, ures)
    decreases MILLION - ures
  {
    if usec >= wid * ures {
      CoarsenMore(usec, wid, ures);
      TenfoldSteps(ures, v);
      CoarsenIsFinest(usec, wid, 10 * ures, v);
    }
  }

  lemma TenfoldSteps(v: nat, u: nat)
    requires IsPower(v) && IsPower(u) && v < u
    ensures 10 * v <= u
  {
  }

  /** Below one second the resolution is the finest that leaves at most `sig` digits and at most `max` decimals. */
  lemma ResolutionIsFinest(usec: nat, sig: nat, max: nat, v: nat)
    requires usec <= MILLION && 1 <= sig <= 6 && 1 <= max <= 6
    ensures var u := Resolution(0, usec, sig, max);
            && IsPower(u) && u >= MILLION / Pow10(max) && usec < Pow10(sig) * u
            && (IsPower(v) && v >= MILLION / Pow10(max) && usec < Pow10(sig) * v ==> v >= u)
  {
    CoarsenIs(usec, Pow10(sig), MILLION / Pow10(max));
    if IsPower(v) && v >= MILLION / Pow10(max) && usec < Pow10(sig) * v {
      CoarsenIsFinest(usec, Pow10(sig), MILLION / Pow10(max), v);
    }
  }

  /** So the microseconds, in units of the resolution, have exactly `sig` digits, or the unit is the last decimal that
      is allowed. */
  lemma SignificantBelowOne(usec: nat, sig: nat, max: nat)
    requires usec <= MILLION && 1 <= sig <= 6 && 1 <= max <= 6
    ensures var u := Resolution(0, usec, sig, max);
            && (u == MILLION / Pow10(max) || Pow10(sig - 1) * u <= usec) && usec < Pow10(sig) * u
  {
    var u := Resolution(0, usec, sig, max);
    CoarsenIs(usec, Pow10(sig), MILLION / Pow10(max));
    if u > MILLION / Pow10(max) {
      assert Pow10(sig) == 10 * Pow10(sig - 1);
      assert Pow10(sig) * u == 10 * (Pow10(sig - 1) * u);
    }
  }

  /** From one second on, the full seconds in units of the resolution have exactly `sig` digits, or the unit is one
      second. */
  lemma SignificantFromOne(sec: nat, usec: nat, sig: nat, max: nat)
    requires usec <= MILLION && 1 <= sig <= 6 && 1 <= max <= 6 && sec > 0
    ensures var u := Resolution(sec, usec, sig, max);
            && IsPower(u) && Pow10(sig - 1) * u <= sec * MILLION && (u < MILLION ==> sec * MILLION < Pow10(sig) * u)
  {
    ResolutionIsPower(sec, usec, sig, max);
    var n, wid := Scale(sec, Pow10(sig), 1), Pow10(sig);
    ScaleIs(sec, wid, 1);
    Products(sec, n, sig);
  }

  lemma Products(sec: nat, n: nat, sig: nat)
    requires 1 <= sig <= 6 && IsPower(n) && n <= Pow10(sig) && n <= 10 * sec && (n < Pow10(sig) ==> sec < n)
    ensures var u := MILLION / Pow10(sig) * n;
            Pow10(sig - 1) * u <= sec * MILLION && (u < MILLION ==> sec * MILLION < Pow10(sig) * u)
  {
    if sig == 1 { } else if sig == 2 { } else if sig == 3 { } else if sig == 4 { } else if sig == 5 { } else { }
  }

  /** What rounding half up means: the multiple of u within half a unit, the upper one of two. */
  lemma RoundHalfUpIs(t: nat, u: nat)
    requires IsPower(u)
    ensures var r := RoundHalfUp(t, u); r % u == 0 && 2 * r <= 2 * t + u < 2 * r + 2 * u
  {
    var m := (t + u / 2) / u;
    var rem := (t + u / 2) % u;
    assert t + u / 2 == u * m + rem && u * m == m * u;
    DivMod(m * u, m, u, 0);
    assert u == 1 || u == 2 * (u / 2);
  }

  lemma DecimalsOf(u: nat, max: nat)
    requires IsPower(u) && max <= 6
    ensures Decimals(u) <= max <==> u >= MILLION / Pow10(max)
  {
    if max == 0 { } else if max == 1 { } else if max == 2 { } else if max == 3 { } else if max == 4 { }
    else if max == 5 { } else { }
  }

  lemma DecimalsWithoutSeconds(usec: nat, sig: nat, max: nat)
    requires usec <= MILLION && 1 <= sig <= 6 && 1 <= max <= 6
    ensures IsPower(Resolution(0, usec, sig, max)) && Decimals(Resolution(0, usec, sig, max)) <= max
  {
    CoarsenIs(usec, Pow10(sig), MILLION / Pow10(max));
    DecimalsOf(Resolution(0, usec, sig, max), max);
  }

  /** The resolution reaches no further than the limit on decimals that the caller gave. */
  lemma ResolutionWithin(sec: nat, usec: nat, sig: nat, max: nat)
    requires usec <= MILLION && 1 <= sig <= 6 && max <= 6
    ensures IsPower(Resolution(sec, usec, sig, max))
    ensures Decimals(Resolution(sec, usec, sig, max)) <= max <==> sec == 0 || max == 0 || sig <= max + SecondDigits(sec)
  {
    if max > 0 && sec > 0 {
      DecimalsWithSeconds(sec, usec, sig, max);
    } else if max > 0 {
      DecimalsWithoutSeconds(usec, sig, max);
    }
  }

  /** The last j digits of f are zeros. */
  predicate EndsInZeros(f: nat, j: nat)
  {
    j == 0 || (f % 10 == 0 && EndsInZeros(f / 10, j - 1))
  }

  lemma {:induction false} TrimmedLength(f: nat, k: nat, j: nat)
    requires j <= k
    ensures |Trimmed(f, k)| <= k - j <==> EndsInZeros(f, j)
    decreases k
  {
    if j > 0 && f % 10 == 0 {
      TrimmedLength(f / 10, k - 1, j - 1);
    } else if j == 0 {
      TrimmedAtMost(f, k);
    }
  }

  lemma {:induction false} TrimmedAtMost(f: nat, k: nat)
    ensures |Trimmed(f, k)| <= k
    decreases k
  {
    if k > 0 && f % 10 == 0 { TrimmedAtMost(f / 10, k - 1); }
  }

  lemma {:induction false} EndsInZerosIs(f: nat, j: nat)
    requires j <= 6
    ensures EndsInZeros(f, j) <==> f % Pow10(j) == 0
    decreases j
  {
    if j > 0 {
      EndsInZerosIs(f / 10, j - 1);
      TenTimes(f, Pow10(j - 1));
    }
  }

  lemma TenTimes(f: nat, p: nat)
    requires p > 0
    ensures f % (10 * p) == 0 <==> f % 10 == 0 && f / 10 % p == 0
  {
    var a, b := f / 10, f % 10;
    var c, d := a / p, a % p;
    assert f == 10 * (c * p + d) + b == c * (10 * p) + (10 * d + b);
    DivMod(f, c, 10 * p, 10 * d + b);
  }

  /** A fraction is printed with at most `max` digits exactly if it is a multiple of that unit. */
  lemma DigitsWithin(frac: nat, max: nat)
    requires frac < MILLION && max <= 6
    ensures |FractionOf(frac)| <= 1 + max <==> frac % (MILLION / Pow10(max)) == 0
  {
    assert MILLION / Pow10(max) == Pow10(6 - max);
    TrimmedLength(frac, 6, 6 - max);
    EndsInZerosIs(frac, 6 - max);
  }

  /** The time that is printed. */
  function Rounded(sec: nat, usec: nat, sig: nat, max: nat): nat
    requires usec <= MILLION && 1 <= sig <= 6 && max <= 6
  {
    ResolutionIsPower(sec, usec, sig, max);
    RoundHalfUp(sec * MILLION + usec, Resolution(sec, usec, sig, max))
  }

  lemma ModMillion(t: nat, max: nat)
    requires max <= 6
    ensures t % (MILLION / Pow10(max)) == t % MILLION % (MILLION / Pow10(max))
  {
    var v := MILLION / Pow10(max);
    PowerDivides(MILLION, v);
    ModTwice(t, MILLION / v, v);
  }

  lemma ModTwice(t: nat, p: nat, v: nat)
    requires p > 0 && v > 0 && p * v > 0
    ensures t % v == t % (p * v) % v
  {
    var a, b := t / (p * v), t % (p * v);
    Distribute(a, p, b / v, v);
    DivMod(t, a * p + b / v, v, b % v);
  }

  lemma Distribute(a: nat, p: nat, c: nat, v: nat)
    ensures (a * p + c) * v == a * (p * v) + c * v
  {
  }

  /** A multiple of u is a multiple of each part of u. */
  lemma MultipleOfPart(m: nat, u: nat, w: nat, v: nat)
    requires v > 0 && u == w * v
    ensures (m * u) % v == 0
  {
    assert m * (w * v) == (m * w) * v;
    DivMod(m * u, m * w, v, 0);
  }

  /** One call prints at most max_dig digits after the point exactly if the rounded time needs no more. */
  lemma PrintedWithin(sec: nat, usec: nat, sig: nat, max: nat)
    requires usec <= MILLION && 1 <= sig <= 6 && max <= 6
    ensures |FractionOf(Rounded(sec, usec, sig, max) % MILLION)| <= 1 + max
       <==> Rounded(sec, usec, sig, max) % (MILLION / Pow10(max)) == 0
  {
    ModMillion(Rounded(sec, usec, sig, max), max);
    DigitsWithin(Rounded(sec, usec, sig, max) % MILLION, max);
  }

  lemma CoarseIsWithin(sec: nat, usec: nat, sig: nat, max: nat)
    requires usec <= MILLION && 1 <= sig <= 6 && max <= 6
    requires sec == 0 || max == 0 || sig <= max + SecondDigits(sec)
    ensures |FractionOf(Rounded(sec, usec, sig, max) % MILLION)| <= 1 + max
  {
    ResolutionWithin(sec, usec, sig, max);
    CoarseMultiple(sec * MILLION + usec, Resolution(sec, usec, sig, max), max);
    PrintedWithin(sec, usec, sig, max);
  }

  lemma CoarseMultiple(t: nat, u: nat, max: nat)
    requires IsPower(u) && max <= 6 && Decimals(u) <= max
    ensures RoundHalfUp(t, u) % (MILLION / Pow10(max)) == 0
  {
    var v := MILLION / Pow10(max);
    DecimalsOf(u, max);
    PowerDivides(u, v);
    MultipleOfPart((t + u / 2) / u, u, u / v, v);
  }

  /** One unit of the resolution after the full second is printed as it is. */
  lemma OneUnit(sec: nat, sig: nat, max: nat)
    requires sec > 0 && 1 <= sig <= 6 && 1 <= max <= 6 && sig > max + SecondDigits(sec)
    ensures var u := Resolution(sec, 0, sig, max);
            && u < MILLION && Resolution(sec, u, sig, max) == u
            && |FractionOf(Rounded(sec, u, sig, max) % MILLION)| > 1 + max
  {
    ResolutionWithin(sec, 0, sig, max);
    FineUnit(sec, Resolution(sec, 0, sig, max), max);
  }

  lemma FineUnit(sec: nat, u: nat, max: nat)
    requires IsPower(u) && max <= 6 && Decimals(u) > max
    ensures u < MILLION && RoundHalfUp(sec * MILLION + u, u) % MILLION == u && |FractionOf(u)| > 1 + max
  {
    DecimalsOf(u, max);
    RoundSplit(sec * MILLION + u, u, sec, 1, u / 2);
    DigitsWithin(u, max);
  }

  /** The limit on digits after the point is kept for all times with these full seconds exactly if there are none,
      or no digits are allowed, or the significant digits run out before the limit. */
  lemma WithinLimitExactly(sec: nat, sig: nat, max: nat)
    requires 1 <= sig <= 6 && max <= 6
    ensures (forall usec :: 0 <= usec <= MILLION ==> |FractionOf(Rounded(sec, usec, sig, max) % MILLION)| <= 1 + max)
       <==> sec == 0 || max == 0 || sig <= max + SecondDigits(sec)
  {
    if sec == 0 || max == 0 || sig <= max + SecondDigits(sec) {
      forall usec | 0 <= usec <= MILLION ensures |FractionOf(Rounded(sec, usec, sig, max) % MILLION)| <= 1 + max {
        CoarseIsWithin(sec, usec, sig, max);
      }
    } else {
      OneUnit(sec, sig, max);
    }
  }

  /** One and a bit seconds, six significant digits, at most two decimals: more than two decimals are printed. */
  lemma LimitCanBeExceeded()
    ensures Rounded(1, 234560, 6, 2) == 1234560 && |FractionOf(1234560 % MILLION)| == 1 + 5
  {
    assert Scale(1, 1000000, 1) == Scale(1, 1000000, 10) == 10;
    assert Resolution(1, 234560, 6, 2) == 10;
    assert RoundHalfUp(1 * MILLION + 234560, 10) == 1234560;
    DigitsWithin(234560, 5);
    DigitsWithin(234560, 4);
  }

  /** What is printed for less than a second, if decimals are allowed: the time rounded half up to the least power of
      ten that respects the limit on decimals and leaves fewer than 10^sig units. */
  lemma RoundedBelowOne(usec: nat, sig: nat, max: nat) returns (u: nat)
    requires usec <= MILLION && 1 <= sig <= 6 && 1 <= max <= 6
    ensures IsPower(u) && u >= MILLION / Pow10(max) && usec < Pow10(sig) * u
    ensures forall v: nat :: IsPower(v) && v >= MILLION / Pow10(max) && usec < Pow10(sig) * v ==> v >= u
    ensures var r := Rounded(0, usec, sig, max); r % u == 0 && 2 * r <= 2 * usec + u < 2 * r + 2 * u
  {
    u := Resolution(0, usec, sig, max);
    ResolutionIsFinest(usec, sig, max, u);
    forall v: nat | IsPower(v) && v >= MILLION / Pow10(max) && usec < Pow10(sig) * v ensures v >= u {
      ResolutionIsFinest(usec, sig, max, v);
    }
    RoundHalfUpIs(usec, u);
  }

  /** And for one second or more. */
  lemma RoundedFromOne(sec: nat, usec: nat, sig: nat, max: nat) returns (u: nat)
    requires usec <= MILLION && 1 <= sig <= 6 && 1 <= max <= 6 && sec > 0
    ensures IsPower(u) && Pow10(sig - 1) * u <= sec * MILLION && (u < MILLION ==> sec * MILLION < Pow10(sig) * u)
    ensures var r, t := Rounded(sec, usec, sig, max), sec * MILLION + usec;
            r % u == 0 && 2 * r <= 2 * t + u < 2 * r + 2 * u
  {
    u := Resolution(sec, usec, sig, max);
    SignificantFromOne(sec, usec, sig, max);
    RoundHalfUpIs(sec * MILLION + usec, u);
  }
}
