/**
 Big-endian positional notation over an arbitrary base. Base58 text and byte
 strings are both digit strings read as one natural number, so the
 conversions between them go through this module.
 */
module Radix {

  /** Every digit of `ds` is smaller than `base`. */
  predicate IsDigits(ds: seq<nat>, base: nat)
  {
    forall i :: 0 <= i < |ds| ==> ds[i] < base
  }

  /** No leading zero digit: the shortest spelling of its value. */
  predicate Minimal(ds: seq<nat>)
  {
    |ds| == 0 || ds[0] != 0
  }

  /** The number a big-endian digit string denotes. */
  function FromDigits(ds: seq<nat>, base: nat): nat
  {
    if |ds| == 0 then 0 else FromDigits(ds[..|ds| - 1], base) * base + ds[|ds| - 1]
  }

  /** The shortest big-endian digit string of `n`; zero has no digits at all. */
  function ToDigits(n: nat, base: nat): (ds: seq<nat>)
    requires base >= 2
    ensures IsDigits(ds, base)
    ensures Minimal(ds)
    ensures |ds| == 0 <==> n == 0
    decreases n
  {
    if n == 0 then []
    else
      DivDecreases(n, base);
      ToDigits(n / base, base) + [n % base]
  }

  /** Euclidean division undoes one positional step. */
  lemma DivModStep(q: nat, d: nat, base: nat)
    requires d < base
    ensures (q * base + d) / base == q
    ensures (q * base + d) % base == d
  {
    var n := q * base + d;
    var q', d' := n / base, n % base;
    assert n == q' * base + d';
    if q > q' {
      assert q * base == (q - q') * base + q' * base;
      MulAtLeast(q - q', base);
    } else if q < q' {
      assert q' * base == (q' - q) * base + q * base;
      MulAtLeast(q' - q, base);
    }
  }

  /** Euclidean division splits a number into quotient and remainder. */
  lemma DivModSplit(n: nat, base: nat)
    requires base >= 1
    ensures n == (n / base) * base + n % base
  {
  }

  /** Dividing a positive number by a base of at least two makes it smaller. */
  lemma DivDecreases(n: nat, base: nat)
    requires n > 0 && base >= 2
    ensures n / base < n
  {
  }

  /** A positive multiple of `b` is at least `b`. */
  lemma MulAtLeast(k: nat, b: nat)
    requires k >= 1
    ensures k * b >= b
  {
    assert k * b == (k - 1) * b + b;
  }

  /** A digit string whose first digit is non-zero denotes a positive number. */
  lemma {:induction false} FromDigitsPositive(ds: seq<nat>, base: nat)
    requires base >= 2
    requires |ds| > 0 && ds[0] != 0
    ensures FromDigits(ds, base) > 0
  {
    if |ds| > 1 {
      var p := ds[..|ds| - 1];
      assert p[0] == ds[0];
      FromDigitsPositive(p, base);
    }
  }

  /** Appending a digit shifts the value by one place. */
  lemma FromDigitsSnoc(ds: seq<nat>, d: nat, base: nat)
    ensures FromDigits(ds + [d], base) == FromDigits(ds, base) * base + d
  {
    assert (ds + [d])[..|ds|] == ds;
  }

  /** Reading back the digits of `n` gives `n`. */
  lemma {:induction false} FromToDigits(n: nat, base: nat)
    requires base >= 2
    ensures FromDigits(ToDigits(n, base), base) == n
    decreases n
  {
    if n != 0 {
      var m, d := n / base, n % base;
      DivDecreases(n, base);
      FromToDigits(m, base);
      FromDigitsSnoc(ToDigits(m, base), d, base);
      assert ToDigits(n, base) == ToDigits(m, base) + [d];
      DivModSplit(n, base);
    }
  }

  /** A minimal digit string is the one `ToDigits` produces for its value. */
  lemma {:induction false} ToFromDigits(ds: seq<nat>, base: nat)
    requires base >= 2
    requires IsDigits(ds, base) && Minimal(ds)
    ensures ToDigits(FromDigits(ds, base), base) == ds
  {
    if |ds| > 0 {
      var p, d := ds[..|ds| - 1], ds[|ds| - 1];
      FromDigitsPositive(ds, base);
      DivModStep(FromDigits(p, base), d, base);
      assert |p| > 0 ==> p[0] == ds[0];
      ToFromDigits(p, base);
      assert ds == p + [d];
    }
  }

  /** `base` raised to the power `e`. */
  function Pow(base: nat, e: nat): nat
  {
    if e == 0 then 1 else base * Pow(base, e - 1)
  }

  /** Powers of one base multiply by adding exponents. */
  lemma {:induction false} PowAdd(base: nat, e1: nat, e2: nat)
    ensures Pow(base, e1 + e2) == Pow(base, e1) * Pow(base, e2)
    decreases e2
  {
    if e2 > 0 {
      PowAdd(base, e1, e2 - 1);
      assert Pow(base, e1 + e2) == base * Pow(base, e1 + e2 - 1);
      assert Pow(base, e1) * Pow(base, e2) == Pow(base, e1) * (base * Pow(base, e2 - 1));
    }
  }

  /** The leading digit fixes a number to within one unit of its place value. */
  lemma {:induction false} FromDigitsBounds(ds: seq<nat>, base: nat)
    requires base >= 2 && IsDigits(ds, base) && |ds| >= 1
    ensures ds[0] * Pow(base, |ds| - 1) <= FromDigits(ds, base)
    ensures FromDigits(ds, base) < (ds[0] + 1) * Pow(base, |ds| - 1)
  {
    if |ds| > 1 {
      var p := ds[..|ds| - 1];
      assert p[0] == ds[0];
      FromDigitsBounds(p, base);
      BoundsStep(FromDigits(p, base), ds[|ds| - 1], ds[0], Pow(base, |p| - 1), base);
    }
  }

  /** One more digit multiplies both bounds by the base. */
  lemma BoundsStep(v: nat, d: nat, lead: nat, place: nat, base: nat)
    requires lead * place <= v < (lead + 1) * place
    requires d < base
    ensures lead * (base * place) <= v * base + d < (lead + 1) * (base * place)
  {
    MulMono(lead * place, v, base);
    MulMono(v + 1, (lead + 1) * place, base);
    assert (v + 1) * base == v * base + base;
  }

  /** Multiplication by a natural number keeps order. */
  lemma MulMono(a: nat, b: nat, c: nat)
    requires a <= b
    ensures a * c <= b * c
  {
    assert b * c == a * c + (b - a) * c;
  }

  /** Dividing by the base lowers both bounds by one place. */
  lemma QuotientRange(n: nat, base: nat, place: nat)
    requires base >= 2
    requires base * place <= n < base * (base * place)
    ensures place <= n / base < base * place
  {
    var q, r := n / base, n % base;
    DivModSplit(n, base);
    assert (q + 1) * base == q * base + base;
    MulCancel(place, q + 1, base);
    MulCancel(q, base * place, base);
  }

  /** Multiplication by a natural number reflects strict order. */
  lemma MulCancel(a: nat, b: nat, c: nat)
    requires a * c < b * c
    ensures a < b
  {
    if a >= b {
      MulMono(b, a, c);
    }
  }

  /** A number from `base^(k-1)` up to but not including `base^k` has exactly `k` digits. */
  lemma {:induction false} ToDigitsLength(n: nat, base: nat, k: nat)
    requires base >= 2 && k >= 1
    requires Pow(base, k - 1) <= n < Pow(base, k)
    ensures |ToDigits(n, base)| == k
    decreases k
  {
    if k == 1 {
      SmallQuotient(n, base);
    } else {
      QuotientRange(n, base, Pow(base, k - 2));
      DivDecreases(n, base);
      ToDigitsLength(n / base, base, k - 1);
    }
  }

  /** A number below the base is a single digit. */
  lemma SmallQuotient(n: nat, base: nat)
    requires base >= 2 && n < base
    ensures n / base == 0
  {
  }
}
