/** Seconds values read from the probe transcript, kept as exact decimals, and their
    conversion to 100-nanosecond ticks. */
module Seconds {
  import opened Wrappers
  import opened Text

  /** The exact decimal `units / 10^scale`. */
  datatype Decimal = Decimal(units: int, scale: nat)

  /** The value both parsers start from before any duration line is seen. */
  const Zero: Decimal := Decimal(0, 0)

  function Pow10(k: nat): (p: nat)
    ensures p >= 1
  {
    if k == 0 then 1 else 10 * Pow10(k - 1)
  }

  predicate IsDigit(c: char) {
    '0' <= c <= '9'
  }

  predicate AllDigits(s: string) {
    forall i :: 0 <= i < |s| ==> IsDigit(s[i])
  }

  /** The number a string of decimal digits denotes. */
  function DigitsValue(s: string): (v: nat)
    requires AllDigits(s)
    ensures v < Pow10(|s|)
  {
    if s == [] then 0 else DigitsValue(s[..|s| - 1]) * 10 + (s[|s| - 1] as int - '0' as int)
  }

  /** The strings .NET's `double.TryParse(s, NumberStyles.AllowDecimalPoint,
      CultureInfo.InvariantCulture, out _)` accepts: digits and at most one '.', with at
      least one digit; no sign, no white space, no exponent. */
  predicate UnsignedSyntax(s: string) {
    (forall i :: 0 <= i < |s| ==> IsDigit(s[i]) || s[i] == '.')
    && (forall i, j :: 0 <= i < j < |s| && s[i] == '.' ==> s[j] != '.')
    && (exists i :: 0 <= i < |s| && IsDigit(s[i]))
  }

  /** The managed number parser: digits around an optional decimal point. */
  function ParseUnsigned(s: string): (r: Option<Decimal>)
    ensures r.Some? ==> r.value.units >= 0
  {
    var (whole, frac) := SplitOnce(s, '.');
    if AllDigits(whole) && AllDigits(frac) && |whole| + |frac| > 0 then
      Some(Decimal(DigitsValue(whole + frac), |frac|))
    else None
  }

  /** The managed parser accepts exactly the plain decimal syntax. */
  lemma ParseUnsignedAccepts(s: string)
    ensures ParseUnsigned(s).Some? <==> UnsignedSyntax(s)
  {
    var (whole, frac) := SplitOnce(s, '.');
    ParseUnsignedSyntax(s, whole, frac, AllDigits(whole) && AllDigits(frac) && |whole| + |frac| > 0);
  }

  lemma ParseUnsignedSyntax(s: string, whole: string, frac: string, ok: bool)
    requires (whole, frac) == SplitOnce(s, '.')
    requires ok == (AllDigits(whole) && AllDigits(frac) && |whole| + |frac| > 0)
    ensures ok <==> UnsignedSyntax(s)
  {
    if '.' in s {
      assert s == whole + ['.'] + frac;
      if ok {
        forall i, j | 0 <= i < j < |s| && s[i] == '.' ensures s[j] != '.' {
          assert i == |whole|;
          assert s[j] == frac[j - |whole| - 1];
        }
        if |whole| > 0 {
          assert IsDigit(s[0]);
        } else {
          assert IsDigit(s[|whole| + 1]);
        }
      }
      if UnsignedSyntax(s) {
        forall i | 0 <= i < |whole| ensures IsDigit(whole[i]) {
          assert whole[i] == s[i];
          assert '.' !in whole;
        }
        forall i | 0 <= i < |frac| ensures IsDigit(frac[i]) {
          assert frac[i] == s[|whole| + 1 + i];
          assert s[|whole|] == '.';
        }
        var k :| 0 <= k < |s| && IsDigit(s[k]);
        assert k != |whole|;
      }
    }
  }

  /** The native number parser (Rust's `str::parse::<f64>` restricted to plain decimals):
      an optional '+' or '-' followed by the managed syntax. */
  function ParseSigned(s: string): (r: Option<Decimal>)
    ensures r.Some? && |s| > 0 && s[0] == '-' ==> r.value.units <= 0
    ensures !(|s| > 0 && (s[0] == '+' || s[0] == '-')) ==> r == ParseUnsigned(s)
  {
    if |s| > 0 && s[0] == '-' then
      match ParseUnsigned(s[1..])
      case Some(d) => Some(Decimal(-d.units, d.scale))
      case None => None
    else if |s| > 0 && s[0] == '+' then ParseUnsigned(s[1..])
    else ParseUnsigned(s)
  }

  /** The native parser accepts an optional sign followed by the plain decimal syntax. */
  lemma ParseSignedAccepts(s: string)
    ensures ParseSigned(s).Some? <==>
      (if |s| > 0 && (s[0] == '+' || s[0] == '-') then UnsignedSyntax(s[1..]) else UnsignedSyntax(s))
  {
    if |s| > 0 && (s[0] == '+' || s[0] == '-') {
      ParseUnsignedAccepts(s[1..]);
    } else {
      ParseUnsignedAccepts(s);
    }
  }

  predicate IsPositive(x: Decimal) {
    x.units > 0
  }

  /** `u * 10^k`, by repeated multiplication by ten. */
  function ScaleUp(u: int, k: nat): (r: int)
    ensures u == 0 ==> r == 0
    ensures u >= 0 ==> r >= 0
  {
    if k == 0 then u else 10 * ScaleUp(u, k - 1)
  }

  /** `n / 10^k` rounded down, by repeated division by ten. */
  function DivPow10(n: int, k: nat): (r: int)
    ensures n >= 0 ==> r >= 0
    ensures 0 <= n < Pow10(k) ==> r == 0
    decreases k
  {
    if k == 0 then n else DivPow10(n / 10, k - 1)
  }

  /** `n / 10^k` rounded to the nearest integer, halves away from zero. */
  function RoundPow10(n: int, k: nat): (r: int)
    requires k > 0
    ensures n == 0 ==> r == 0
    ensures n >= 0 ==> r >= 0
  {
    var half := 5 * Pow10(k - 1);
    if n >= 0 then DivPow10(n + half, k) else -DivPow10(-n + half, k)
  }

  /** Seconds to ticks: `round(seconds * 10^7)`, computed on the exact decimal. */
  function Ticks(x: Decimal): (t: int)
    ensures x.units == 0 ==> t == 0
    ensures x.units >= 0 ==> t >= 0
  {
    if x.scale <= 7 then ScaleUp(x.units, 7 - x.scale) else RoundPow10(x.units, x.scale - 7)
  }

  lemma {:induction false} ScaleUpIs(u: int, k: nat)
    ensures ScaleUp(u, k) == u * Pow10(k)
    decreases k
  {
    if k > 0 {
      ScaleUpIs(u, k - 1);
      MulAssoc(u, Pow10(k - 1), 10);
    }
  }

  lemma {:induction false} DivPow10Is(n: int, k: nat)
    ensures DivPow10(n, k) == n / Pow10(k)
    decreases k
  {
    if k > 0 {
      DivPow10Is(n / 10, k - 1);
      DivDiv(n, 10, Pow10(k - 1));
    }
  }

  /** Dividing by `a` and then by `b` is dividing by `a * b`. */
  lemma DivDiv(n: int, a: int, b: int)
    requires a > 0 && b > 0
    ensures (n / a) / b == n / (a * b)
  {
    var q, r := n / a, n % a;
    var q2, r2 := q / b, q % b;
    DivMod(n, a);
    DivMod(q, b);
    Distribute(a, b, q2, r2);
    MulBelow(a, r2, b);
    DivUnique(n, a * b, q2, a * r2 + r);
  }

  lemma DivMod(n: int, m: int)
    requires m > 0
    ensures n == m * (n / m) + n % m && 0 <= n % m < m
  {
  }

  lemma Distribute(a: int, b: int, q: int, r: int)
    ensures a * (b * q + r) == (a * b) * q + a * r
  {
  }

  /** `a * r + a <= a * b` when `0 <= r < b`. */
  lemma MulBelow(a: int, r: int, b: int)
    requires a > 0 && 0 <= r < b
    ensures 0 <= a * r && a * r + a <= a * b
  {
    var e := b - r - 1;
    MulNonNegative(a, r);
    MulNonNegative(a, e);
    assert a * b == a * r + a + a * e by {
      assert b == r + 1 + e;
    }
  }

  lemma MulNonNegative(a: int, b: int)
    requires a >= 0 && b >= 0
    ensures a * b >= 0
  {
  }

  /** The quotient is the one `q` with `n == m * q + r` and `0 <= r < m`. */
  lemma DivUnique(n: int, m: int, q: int, r: int)
    requires m > 0 && n == m * q + r && 0 <= r < m
    ensures n / m == q
  {
    DivMod(n, m);
    var d := n / m - q;
    assert m * d == r - n % m by {
      assert m * (n / m) - m * q == m * d;
    }
    MulAtLeast(m, d);
  }

  /** A multiple of `m > 0` by a non-zero integer is at least `m` away from zero. */
  lemma MulAtLeast(m: int, d: int)
    requires m > 0
    ensures d >= 1 ==> m * d >= m
    ensures d <= -1 ==> m * d <= -m
  {
    if d >= 1 {
      MulNonNegative(m, d - 1);
      assert m * d - m == m * (d - 1);
    } else if d <= -1 {
      MulNonNegative(m, -1 - d);
      assert -m - m * d == m * (-1 - d);
    }
  }

  /** Adding half the divisor before dividing rounds to the nearest quotient. */
  lemma HalfUpBound(n: int, d: int, half: int)
    requires d == 2 * half && half > 0 && n >= 0
    ensures 2 * n - d < 2 * ((n + half) / d) * d <= 2 * n + d
  {
    var t := (n + half) / d;
    DivMod(n + half, d);
    assert 2 * t * d == 2 * (d * t);
  }

  /** Rounding half away from zero, for either sign. */
  lemma RoundBound(n: int, d: int, half: int, r: int)
    requires d == 2 * half && half > 0
    requires n >= 0 ==> r == (n + half) / d
    requires n < 0 ==> r == -((-n + half) / d)
    ensures 2 * n - d <= 2 * r * d <= 2 * n + d
  {
    if n >= 0 {
      HalfUpBound(n, d, half);
    } else {
      var t := (-n + half) / d;
      HalfUpBound(-n, d, half);
      assert 2 * r * d == -(2 * t * d);
    }
  }

  /** With at most seven decimals the conversion is exact. */
  lemma TicksExact(x: Decimal)
    requires x.scale <= 7
    ensures Ticks(x) * Pow10(x.scale) == x.units * Pow10(7)
  {
    var a, b := Pow10(7 - x.scale), Pow10(x.scale);
    ScaleUpIs(x.units, 7 - x.scale);
    Pow10Add(7 - x.scale, x.scale);
    MulAssoc(x.units, a, b);
  }

  lemma MulAssoc(u: int, a: int, b: int)
    ensures (u * a) * b == u * (a * b)
  {
  }

  /** With more decimals the conversion rounds to the nearest tick. */
  lemma TicksRounded(x: Decimal)
    requires x.scale > 7
    ensures 2 * x.units - Pow10(x.scale - 7) <= 2 * Ticks(x) * Pow10(x.scale - 7) <= 2 * x.units + Pow10(x.scale - 7)
  {
    var k := x.scale - 7;
    var half := 5 * Pow10(k - 1);
    assert Pow10(k) == 2 * half;
    if x.units >= 0 {
      DivPow10Is(x.units + half, k);
    } else {
      DivPow10Is(-x.units + half, k);
    }
    RoundBound(x.units, Pow10(k), half, Ticks(x));
  }

  lemma {:induction false} Pow10Add(a: nat, b: nat)
    ensures Pow10(a) * Pow10(b) == Pow10(a + b)
  {
    if a > 0 {
      Pow10Add(a - 1, b);
    }
  }
}
