/**
 Rationals among the reals: denominators, least common multiples, and scaling to integers.
 */
module Rationals {
  import opened LinearAlgebra

  predicate IsInteger(x: real) {
    x == x.Floor as real
  }

  /** `d` is a positive denominator of `x`, not necessarily the least. */
  predicate Clears(d: int, x: real) {
    d >= 1 && IsInteger(Times(x, d as real))
  }

  ghost predicate IsRational(x: real) {
    exists d: int :: Clears(d, x)
  }

  ghost predicate VecRational(v: Vec) {
    forall i :: 0 <= i < |v| ==> IsRational(v[i])
  }

  ghost predicate MatRational(m: Mat) {
    forall i :: 0 <= i < |m| ==> VecRational(m[i])
  }

  // ---------- Rationals are closed under the field operations ----------

  lemma IntegerIsRational(n: int)
    ensures IsInteger(n as real) && IsRational(n as real)
  {
    assert Times(n as real, 1 as real) == n as real;
    assert Clears(1, n as real);
  }

  lemma ClearsProduct(a: real, d: int, b: real, e: int)
    requires Clears(d, a) && Clears(e, b)
    ensures Clears(d * e, Times(a, b))
  {
    var i, j := Times(a, d as real).Floor, Times(b, e as real).Floor;
    assert d * e >= 1;
    calc {
      Times(Times(a, b), (d * e) as real);
      (a * b) * (d as real * e as real);
      (a * d as real) * (b * e as real);
      i as real * j as real;
      (i * j) as real;
    }
  }

  lemma ClearsSum(a: real, d: int, b: real, e: int)
    requires Clears(d, a) && Clears(e, b)
    ensures Clears(d * e, a + b)
  {
    var i, j := Times(a, d as real).Floor, Times(b, e as real).Floor;
    assert d * e >= 1;
    calc {
      Times(a + b, (d * e) as real);
      (a + b) * (d as real * e as real);
      (a * d as real) * e as real + (b * e as real) * d as real;
      i as real * e as real + j as real * d as real;
      (i * e + j * d) as real;
    }
  }

  lemma RationalSum(a: real, b: real)
    requires IsRational(a) && IsRational(b)
    ensures IsRational(a + b)
  {
    var d: int :| Clears(d, a);
    var e: int :| Clears(e, b);
    ClearsSum(a, d, b, e);
  }

  lemma RationalProduct(a: real, b: real)
    requires IsRational(a) && IsRational(b)
    ensures IsRational(Times(a, b))
  {
    var d: int :| Clears(d, a);
    var e: int :| Clears(e, b);
    ClearsProduct(a, d, b, e);
  }

  lemma RationalMinus(a: real)
    requires IsRational(a)
    ensures IsRational(-a)
  {
    var d: int :| Clears(d, a);
    var i := Times(a, d as real).Floor;
    assert Times(-a, d as real) == (-i) as real;
    assert Clears(d, -a);
  }

  lemma RationalInverse(a: real)
    requires IsRational(a) && a != 0.0
    ensures IsRational(1.0 / a)
  {
    var d: int :| Clears(d, a);
    var i := Times(a, d as real).Floor;
    TimesZero(a, d as real);
    var p, s := if i > 0 then i else -i, if i > 0 then d else -d;
    InverseValue(a, d, i);
    assert Times(1.0 / a, p as real) == s as real;
    assert Clears(p, 1.0 / a);
  }

  lemma InverseValue(a: real, d: int, i: int)
    requires a != 0.0 && a * d as real == i as real
    ensures (1.0 / a) * i as real == d as real
  {
    var q := 1.0 / a;
    assert q * a == 1.0;
    assert q * (a * d as real) == (q * a) * d as real;
  }

  // ---------- Denominators ----------

  predicate Divides(d: int, k: int) {
    d >= 1 && k % d == 0
  }

  lemma ClearsMultiple(d: int, x: real, k: int)
    requires Clears(d, x) && k >= 1 && Divides(d, k)
    ensures Clears(k, x)
  {
    var i, q := Times(x, d as real).Floor, k / d;
    calc {
      Times(x, k as real);
      x * (d * q) as real;
      (x * d as real) * q as real;
      (i * q) as real;
    }
  }

  /** The least denominator divides all others. */
  lemma LeastDivides(d: int, x: real, k: int)
    requires Clears(d, x) && Clears(k, x) && forall e: int :: 1 <= e < d ==> !Clears(e, x)
    ensures Divides(d, k)
  {
    var i, j, q, r := Times(x, d as real).Floor, Times(x, k as real).Floor, k / d, k % d;
    calc {
      Times(x, r as real);
      x * (k - d * q) as real;
      x * k as real - (x * d as real) * q as real;
      (j - i * q) as real;
    }
    assert r >= 1 ==> Clears(r, x);
  }

  /** The denominator of `x` in lowest terms, as the rational type provides it. */
  method Denominator(x: real) returns (d: int)
    requires IsRational(x)
    ensures Clears(d, x)
    ensures forall k: int :: Clears(k, x) ==> Divides(d, k)
  {
    ghost var bound: int :| Clears(bound, x);
    d := 1;
    while !Clears(d, x)
      invariant 1 <= d <= bound
      invariant forall e: int :: 1 <= e < d ==> !Clears(e, x)
      decreases bound - d
    {
      d := d + 1;
    }
    forall k: int | Clears(k, x)
      ensures Divides(d, k)
    {
      LeastDivides(d, x, k);
    }
  }

  lemma SumDivisible(a: int, b: int, d: int)
    requires d >= 1 && a % d == 0 && b % d == 0
    ensures (a + b) % d == 0 && (a - b) % d == 0
  {
    assert a == d * (a / d) && b == d * (b / d);
    assert a + b == d * (a / d + b / d) && a - b == d * (a / d - b / d);
    MultipleDivisible(a / d + b / d, d);
    MultipleDivisible(a / d - b / d, d);
  }

  lemma MultipleDivisible(q: int, d: int)
    requires d >= 1
    ensures (d * q) % d == 0
  {
    var p, r := (d * q) / d, (d * q) % d;
    assert d * (q - p) == r;
    ScaledBound(d, q - p);
  }

  lemma ScaledBound(d: int, t: int)
    requires d >= 1
    ensures t >= 1 ==> d * t >= d
    ensures t <= -1 ==> d * t <= -d
  {
  }

  lemma DivisibleTransitive(a: int, b: int, c: int)
    requires Divides(b, a) && Divides(c, b)
    ensures Divides(c, a)
  {
    var q, p := a / b, b / c;
    assert a == (c * p) * q == c * (p * q);
    MultipleDivisible(p * q, c);
  }

  /** The least common multiple, as the integer type provides it. */
  method Lcm(a: int, b: int) returns (l: int)
    requires a >= 1 && b >= 1
    ensures l >= 1 && Divides(a, l) && Divides(b, l)
    ensures forall k :: Divides(a, k) && Divides(b, k) ==> Divides(l, k)
  {
    ghost var bound := ProductBounds(a, b);
    l := a;
    while l % b != 0
      invariant a <= l <= bound && l % a == 0
      invariant NoCommonMultipleBelow(a, b, l)
      decreases bound - l
    {
      NextMultiple(a, b, l, bound);
      l := l + a;
    }
    forall k | Divides(a, k) && Divides(b, k)
      ensures Divides(l, k)
    {
      CommonMultiple(a, b, l, k);
    }
  }

  ghost predicate NoCommonMultipleBelow(a: int, b: int, l: int)
    requires a >= 1 && b >= 1
  {
    forall e :: 1 <= e < l && e % a == 0 ==> e % b != 0
  }

  lemma ProductBounds(a: int, b: int) returns (bound: int)
    requires a >= 1 && b >= 1
    ensures bound >= a && bound % a == 0 && bound % b == 0 && a % a == 0
    ensures NoCommonMultipleBelow(a, b, a)
  {
    bound := a * b;
    MultipleDivisible(b, a);
    MultipleDivisible(a, b);
    MultipleDivisible(1, a);
    assert a * b >= a * 1;
    assert b * a == a * b;
    forall e | 1 <= e < a
      ensures e % a != 0
    {
    }
  }

  lemma NextMultiple(a: int, b: int, l: int, bound: int)
    requires a >= 1 && b >= 1 && l >= 1 && l % a == 0 && l % b != 0 && NoCommonMultipleBelow(a, b, l)
    requires l <= bound && bound % a == 0 && bound % b == 0
    ensures l + a <= bound && (l + a) % a == 0
    ensures NoCommonMultipleBelow(a, b, l + a)
  {
    MultipleDivisible(1, a);
    SumDivisible(l, a, a);
    SumDivisible(bound, l, a);
    GapDivisible(bound - l, a);
    forall e | 1 <= e < l + a && e % a == 0
      ensures e % b != 0
    {
      if e > l {
        SumDivisible(e, l, a);
        GapDivisible(e - l, a);
      }
    }
  }

  lemma GapDivisible(g: int, a: int)
    requires a >= 1 && g % a == 0 && g > 0
    ensures g >= a
  {
    assert g == a * (g / a);
  }

  lemma CommonMultiple(a: int, b: int, l: int, k: int)
    requires a >= 1 && b >= 1 && l >= 1 && l % a == 0 && l % b == 0 && k % a == 0 && k % b == 0
    requires NoCommonMultipleBelow(a, b, l)
    ensures k % l == 0
  {
    var q, r := k / l, k % l;
    MultipleDivisible(q, l);
    DivisibleTransitive(l * q, l, a);
    DivisibleTransitive(l * q, l, b);
    SumDivisible(k, l * q, a);
    SumDivisible(k, l * q, b);
    assert r == k - l * q;
  }
}
