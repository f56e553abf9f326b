/** Big-endian digit sequences in an arbitrary base. One definition serves
    decimal and hexadecimal text, the octets of an IPv4 address and the
    hextets of an IPv6 address. */
module Radix {

  function Pow(b: nat, k: nat): (r: nat)
    ensures b >= 1 ==> r >= 1
  {
    if k == 0 then 1 else b * Pow(b, k - 1)
  }

  predicate AllBelow(ds: seq<nat>, base: nat) {
    forall i :: 0 <= i < |ds| ==> ds[i] < base
  }

  /** The number a big-endian digit sequence denotes (most significant first),
      accumulated as `acc := acc * base + digit`. */
  function FromDigits(ds: seq<nat>, base: nat): nat {
    if ds == [] then 0 else FromDigits(ds[..|ds| - 1], base) * base + ds[|ds| - 1]
  }

  /** Exactly `count` big-endian digits of `n` (the low `count` places). */
  function ToDigits(n: nat, base: nat, count: nat): (ds: seq<nat>)
    requires base >= 2
    ensures |ds| == count
    ensures AllBelow(ds, base)
  {
    if count == 0 then []
    else
      DivMod(n, base);
      ToDigits(n / base, base, count - 1) + [n % base]
  }

  /** The shortest digit sequence of `n`: what `%d` and `%x` print. */
  function MinimalDigits(n: nat, base: nat): (ds: seq<nat>)
    requires base >= 2
    ensures Canonical(ds)
    ensures AllBelow(ds, base)
    ensures |ds| == 1 ==> ds[0] == n
  {
    if n < base then [n]
    else
      DivMod(n, base);
      MinimalDigits(n / base, base) + [n % base]
  }

  /** Non-empty and without a leading zero, except for the single digit 0. */
  predicate Canonical(ds: seq<nat>) {
    |ds| >= 1 && (ds[0] != 0 || |ds| == 1)
  }

  lemma {:induction false} FromDigitsAppend(ds: seq<nat>, d: nat, base: nat)
    ensures FromDigits(ds + [d], base) == FromDigits(ds, base) * base + d
  {
    assert (ds + [d])[..|ds + [d]| - 1] == ds;
  }

  lemma {:induction false} FromDigitsBound(ds: seq<nat>, base: nat)
    requires base >= 1
    requires AllBelow(ds, base)
    ensures FromDigits(ds, base) < Pow(base, |ds|)
  {
    if ds != [] {
      var init := ds[..|ds| - 1];
      FromDigitsBound(init, base);
      var f := FromDigits(init, base);
      var p := Pow(base, |init|);
      assert ds[|ds| - 1] < base;
      MulBelow(f, p, ds[|ds| - 1], base);
    }
  }

  /** `f * base + d < p * base` when `f < p` and `d` is one digit. */
  lemma MulBelow(f: nat, p: nat, d: nat, base: nat)
    requires f < p && d < base
    ensures f * base + d < p * base
  {
    MulMonotone(f, p - 1, base);
    assert (p - 1) * base == p * base - base;
  }

  lemma MulMonotone(a: int, b: int, c: nat)
    requires a <= b
    ensures a * c <= b * c
  {
  }

  lemma {:induction false} FromToDigits(n: nat, base: nat, count: nat)
    requires base >= 2
    requires n < Pow(base, count)
    ensures FromDigits(ToDigits(n, base, count), base) == n
    decreases count
  {
    if count > 0 {
      DivBelowPow(n, base, Pow(base, count - 1));
      FromToDigits(n / base, base, count - 1);
      ToDigitsStep(n, base, count);
    }
  }

  /** One step of `ToDigits`: if the quotient's digits read back, so do
      those of `n`. */
  lemma ToDigitsStep(n: nat, base: nat, count: nat)
    requires base >= 2 && count >= 1
    requires FromDigits(ToDigits(n / base, base, count - 1), base) == n / base
    ensures FromDigits(ToDigits(n, base, count), base) == n
  {
    var ds := ToDigits(n / base, base, count - 1);
    assert ToDigits(n, base, count) == ds + [n % base];
    FromDigitsAppend(ds, n % base, base);
    DivMod(n, base);
  }

  lemma DivBelowPow(n: nat, base: nat, p: nat)
    requires base >= 2
    requires n < base * p
    ensures n / base < p
  {
    DivMod(n, base);
    var q := n / base;
    if q >= p {
      MulMonotone(p, q, base);
    }
  }

  lemma {:induction false} ToFromDigits(ds: seq<nat>, base: nat)
    requires base >= 2
    requires AllBelow(ds, base)
    ensures ToDigits(FromDigits(ds, base), base, |ds|) == ds
  {
    if ds != [] {
      var init := ds[..|ds| - 1];
      var d := ds[|ds| - 1];
      var v := FromDigits(ds, base);
      assert v == FromDigits(init, base) * base + d;
      DivModDigit(FromDigits(init, base), d, base);
      ToFromDigits(init, base);
      assert ds == init + [d];
    }
  }

  lemma DivModDigit(f: nat, d: nat, base: nat)
    requires base >= 2
    requires d < base
    ensures (f * base + d) / base == f
    ensures (f * base + d) % base == d
  {
    DivModUnique(f * base + d, base, f, d);
  }

  /** Euclidean division is determined by its quotient-remainder equation. */
  lemma DivModUnique(n: int, b: int, q: int, r: int)
    requires b > 0 && 0 <= r < b && n == q * b + r
    ensures n / b == q && n % b == r
  {
    var q', r' := n / b, n % b;
    assert n == q' * b + r';
    assert (q - q') * b == r' - r;
    if q - q' >= 1 {
      MulMonotone(1, q - q', b);
    } else if q' - q >= 1 {
      MulMonotone(1, q' - q, b);
    }
  }

  /** The facts about `n / base` and `n % base` that digit extraction needs. */
  lemma DivMod(n: nat, base: nat)
    requires base >= 2
    ensures n == (n / base) * base + n % base
    ensures 0 <= n % base < base
    ensures n >= base ==> 1 <= n / base < n
    ensures n < base ==> n / base == 0
  {
    var q := n / base;
    if n >= base {
      MulMonotone(2, base, q);
      assert q * 2 <= q * base;
    } else {
      DivModUnique(n, base, 0, n);
    }
  }

  lemma {:induction false} FromMinimalDigits(n: nat, base: nat)
    requires base >= 2
    ensures FromDigits(MinimalDigits(n, base), base) == n
  {
    if n >= base {
      var q, r := n / base, n % base;
      assert n == q * base + r && q < n by {
        DivMod(n, base);
      }
      FromMinimalDigits(q, base);
      var ds := MinimalDigits(q, base);
      assert MinimalDigits(n, base) == ds + [r];
      assert FromDigits(ds + [r], base) == q * base + r by {
        FromDigitsAppend(ds, r, base);
      }
    }
  }

  lemma {:induction false} LeadingDigitPositive(ds: seq<nat>, base: nat)
    requires base >= 1
    requires |ds| >= 1 && ds[0] != 0
    ensures FromDigits(ds, base) >= 1
  {
    if |ds| > 1 {
      var init := ds[..|ds| - 1];
      assert init[0] == ds[0];
      LeadingDigitPositive(init, base);
      MulMonotone(1, FromDigits(init, base), base);
    }
  }

  /** The leading digit weighs `base^(k-1)` in a number of `k` digits. */
  lemma {:induction false} LeadingDigitWeight(ds: seq<nat>, base: nat)
    requires base >= 1 && |ds| >= 1
    ensures FromDigits(ds, base) >= ds[0] * Pow(base, |ds| - 1)
  {
    var init := ds[..|ds| - 1];
    if |ds| == 1 {
      assert init == [];
    } else {
      assert init[0] == ds[0];
      LeadingDigitWeight(init, base);
      var w := ds[0] * Pow(base, |init| - 1);
      MulMonotone(w, FromDigits(init, base), base);
      assert w * base == ds[0] * Pow(base, |ds| - 1);
    }
  }

  /** A canonical digit sequence is the one `MinimalDigits` prints for its value. */
  lemma {:induction false} MinimalOfCanonical(ds: seq<nat>, base: nat)
    requires base >= 2
    requires Canonical(ds) && AllBelow(ds, base)
    ensures MinimalDigits(FromDigits(ds, base), base) == ds
  {
    if |ds| == 1 {
      assert ds[..0] == [];
    } else {
      var init := ds[..|ds| - 1];
      var d := ds[|ds| - 1];
      assert init[0] == ds[0];
      var f := FromDigits(init, base);
      LeadingDigitPositive(init, base);
      MulMonotone(1, f, base);
      DivModDigit(f, d, base);
      MinimalOfCanonical(init, base);
      assert ds == init + [d];
    }
  }

  /** A value below `base^k` needs at most `k` digits. */
  lemma {:induction false} MinimalDigitsLength(n: nat, base: nat, k: nat)
    requires base >= 2 && k >= 1
    requires n < Pow(base, k)
    ensures |MinimalDigits(n, base)| <= k
    decreases k
  {
    if n >= base {
      assert k >= 2;
      DivBelowPow(n, base, Pow(base, k - 1));
      MinimalDigitsLength(n / base, base, k - 1);
    }
  }
}
