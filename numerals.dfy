/** Positional numerals over exact non-negative integers.
    The big-integer library the conversions rely on is modelled as `nat`
    arithmetic: `.add`, `.multiply`, `.divide`, `.mod` and `.pow` become
    `+`, `*`, `/`, `%` and `Pow`. A numeral is a sequence of digit values,
    most significant first. */
module Numerals {

  /** `b` raised to the `k`-th power (the library's `pow`). */
  function Pow(b: nat, k: nat): (r: nat)
    ensures b >= 1 ==> r >= 1
    ensures b >= 2 ==> r >= k + 1
  {
    if k == 0 then 1 else b * Pow(b, k - 1)
  }

  /** All digits are valid digits of base `b`. */
  predicate DigitsBelow(ds: seq<nat>, b: nat) {
    forall i :: 0 <= i < |ds| ==> ds[i] < b
  }

  /** The positional sum of ds[i] * b^(|ds|-i-1), the sum the decoder
      accumulates one term at a time. */
  function Value(ds: seq<nat>, b: nat): nat {
    if ds == [] then 0 else ds[0] * Pow(b, |ds| - 1) + Value(ds[1..], b)
  }

  /** The suffix from position i is its first digit's term plus the
      suffix after it. */
  lemma ValueSuffix(ds: seq<nat>, i: nat, b: nat)
    requires i < |ds|
    ensures Value(ds[i..], b) == ds[i] * Pow(b, |ds| - i - 1) + Value(ds[i + 1..], b)
  {
    assert ds[i..][1..] == ds[i + 1..];
  }

  /** Horner's evaluation of the same numeral: the value of all digits but
      the last, times the base, plus the last digit. */
  function Horner(ds: seq<nat>, b: nat): nat {
    if ds == [] then 0 else Horner(ds[..|ds| - 1], b) * b + ds[|ds| - 1]
  }

  /** Appending a digit shifts the numeral one place to the left. */
  lemma {:induction false} ValueAppend(ds: seq<nat>, d: nat, b: nat)
    ensures Value(ds + [d], b) == Value(ds, b) * b + d
  {
    if ds == [] {
      assert [] + [d] == [d];
    } else {
      var t := ds[1..];
      assert (ds + [d])[1..] == t + [d];
      ValueAppend(t, d, b);
      var p := Pow(b, |t|);
      assert Pow(b, |ds|) == b * p;
      calc {
        Value(ds + [d], b);
        ds[0] * Pow(b, |ds|) + Value(t + [d], b);
        ds[0] * (b * p) + Value(t, b) * b + d;
        { MulRotate(ds[0], b, p); }
        (ds[0] * p) * b + Value(t, b) * b + d;
        (ds[0] * p + Value(t, b)) * b + d;
        Value(ds, b) * b + d;
      }
    }
  }

  /** The positional sum and Horner's method agree on every numeral. */
  lemma {:induction false} ValueIsHorner(ds: seq<nat>, b: nat)
    ensures Value(ds, b) == Horner(ds, b)
    decreases |ds|
  {
    if ds != [] {
      var init := ds[..|ds| - 1];
      var last := ds[|ds| - 1];
      assert ds == init + [last];
      ValueIsHorner(init, b);
      ValueAppend(init, last, b);
    }
  }

  /** A numeral of k digits of base b is below b^k. */
  lemma {:induction false} ValueBound(ds: seq<nat>, b: nat)
    requires DigitsBelow(ds, b)
    ensures Value(ds, b) < Pow(b, |ds|)
  {
    if ds != [] {
      var t := ds[1..];
      ValueBound(t, b);
      var p := Pow(b, |t|);
      assert Value(ds, b) == ds[0] * p + Value(t, b);
      MulMonotone(ds[0] + 1, b, p);
      assert ds[0] * p + p == (ds[0] + 1) * p;
    }
  }

  /** Euclidean division by a base of at least 2: a quotient below the
      dividend (for a positive dividend) and a remainder below the base. */
  lemma DivMod(n: nat, b: nat)
    requires b >= 2
    ensures 0 <= n / b && (n > 0 ==> n / b < n)
    ensures 0 <= n % b < b && n == (n / b) * b + n % b
  {
  }

  /** Quotient and remainder are determined by n == q * b + d, d < b. */
  lemma DivModUnique(n: nat, b: nat, q: nat, d: nat)
    requires b >= 1 && d < b && n == q * b + d
    ensures n / b == q && n % b == d
  {
    var q', d' := n / b, n % b;
    QuotientAtLeast(n, b, q, d, q', d');
    QuotientAtLeast(n, b, q', d', q, d);
  }

  /** Of two ways to write n as quotient * b + remainder with remainders
      below b, the second quotient is not smaller than the first. */
  lemma QuotientAtLeast(n: nat, b: nat, q: nat, d: nat, q': nat, d': nat)
    requires d < b && n == q * b + d
    requires d' < b && n == q' * b + d'
    ensures q <= q'
  {
    if q' < q {
      assert (q' + 1) * b == q' * b + b;
      MulMonotone(q' + 1, q, b);
      assert false;
    }
  }

  /** If b^k <= q < b^(k+1) then q * b + r, r < b, lies in [b^(k+1), b^(k+2)). */
  lemma ScaleBounds(n: nat, b: nat, q: nat, r: nat, k: nat)
    requires r < b && n == q * b + r
    requires Pow(b, k) <= q < Pow(b, k + 1)
    ensures Pow(b, k + 1) <= n < Pow(b, k + 2)
  {
    var lo, hi := Pow(b, k), Pow(b, k + 1);
    assert Pow(b, k + 1) == b * lo;
    assert Pow(b, k + 2) == b * hi;
    MulMonotone(lo, q, b);
    MulMonotone(q + 1, hi, b);
    assert b * (q + 1) == b * q + b;
  }

  lemma MulRotate(x: nat, y: nat, z: nat)
    ensures x * (y * z) == (x * z) * y
  {
  }

  lemma MulMonotone(x: nat, y: nat, p: nat)
    requires x <= y
    ensures x * p <= y * p && p * x <= p * y
  {
  }

  /** A numeral whose leading digit is non-zero is at least b^(k-1). */
  lemma ValueLeadingDigit(ds: seq<nat>, b: nat)
    requires b >= 1 && |ds| >= 1 && ds[0] >= 1
    ensures Value(ds, b) >= Pow(b, |ds| - 1)
  {
    var p := Pow(b, |ds| - 1);
    assert ds[0] * p >= 1 * p;
  }

  /** Any number of leading zero digits leaves the value unchanged. */
  lemma {:induction false} ValueLeadingZeros(k: nat, ds: seq<nat>, b: nat)
    ensures Value(seq(k, _ => 0) + ds, b) == Value(ds, b)
  {
    if k == 0 {
      assert seq(k, _ => 0) + ds == ds;
    } else {
      var zs := seq(k, _ => 0);
      assert (zs + ds)[0] == 0;
      assert (zs + ds)[1..] == seq(k - 1, _ => 0) + ds;
      ValueLeadingZeros(k - 1, ds, b);
    }
  }
}
