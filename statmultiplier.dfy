/** The integer part of `statMultiplicator(sk, re)` in rearrange.js: the
    product over the five stats of `(getDigit(re, i, 16) + 8) ** getDigit(sk, i, 16)`.
    `re` is a distribution (digit i: the points put into stat i), `sk` a
    skill's dependency (digit i: the weight of stat i). */
module StatMultiplier {
  import opened Arith
  import opened Digits

  /** The base of both encodings. */
  const Radix := 16
  /** The number of stats, the length of the `Array.from` in the source. */
  const StatCount := 5
  /** The value every stat has before points are put into it. */
  const StatFloor := 8

  /** The factor of stat i: its value raised to its weight. */
  function Factor(sk: nat, re: nat, i: nat): (r: nat)
    ensures r >= 1
    ensures GetDigit(sk, i, Radix) == 0 ==> r == 1
  {
    var e := GetDigit(sk, i, Radix);
    PowPositive(GetDigit(re, i, Radix) + StatFloor, e);
    Pow(GetDigit(re, i, Radix) + StatFloor, e)
  }

  /** The five factors, as the `Array.from({length: 5}, ...)` builds them. */
  function Factors(sk: nat, re: nat): (fs: seq<nat>)
    ensures |fs| == StatCount
    ensures forall i :: 0 <= i < StatCount ==> fs[i] >= 1 && (GetDigit(sk, i, Radix) == 0 ==> fs[i] == 1)
  {
    seq(StatCount, i requires 0 <= i < StatCount => Factor(sk, re, i))
  }

  /** The product of a sequence, folded from the left as `reduce` does. */
  function Product(xs: seq<nat>): (r: nat)
    ensures (forall k :: 0 <= k < |xs| ==> xs[k] >= 1) ==> r >= 1
  {
    if |xs| == 0 then 1
    else
      var p := Product(xs[..|xs| - 1]);
      MulAtLeastOne(p, xs[|xs| - 1]);
      p * xs[|xs| - 1]
  }

  lemma MulAtLeastOne(a: int, c: int)
    ensures a >= 1 && c >= 1 ==> a * c >= 1
  {
    if a >= 1 && c >= 1 {
      MulAtLeast(a, c);
    }
  }

  /** The product the source takes the logarithm of. It is at least 1, so
      the logarithm is defined and not negative. */
  function StatProduct(sk: nat, re: nat): (r: nat)
    ensures r >= 1
  {
    Product(Factors(sk, re))
  }

  lemma {:induction false} ProductOfOnes(xs: seq<nat>)
    requires forall k :: 0 <= k < |xs| ==> xs[k] == 1
    ensures Product(xs) == 1
  {
    if |xs| > 0 {
      ProductOfOnes(xs[..|xs| - 1]);
    }
  }

  /** With no dependency at all every factor is 1: the product is 1
      whatever the distribution. */
  lemma ZeroDependency(re: nat)
    ensures StatProduct(0, re) == 1
  {
    forall i | 0 <= i < StatCount
      ensures Factors(0, re)[i] == 1
    {
      GetDigitZero(i, Radix);
    }
    ProductOfOnes(Factors(0, re));
  }

  /** Two sequences of positive factors that differ only at position i:
      the products compare as the factors there do. */
  lemma {:induction false} ProductCompare(xs: seq<nat>, ys: seq<nat>, i: nat)
    requires |xs| == |ys| && i < |xs|
    requires forall k :: 0 <= k < |xs| ==> xs[k] >= 1 && ys[k] >= 1
    requires forall k :: 0 <= k < |xs| && k != i ==> xs[k] == ys[k]
    ensures xs[i] < ys[i] ==> Product(xs) < Product(ys)
    ensures xs[i] == ys[i] ==> Product(xs) == Product(ys)
  {
    var n := |xs|;
    var xs', ys' := xs[..n - 1], ys[..n - 1];
    if i == n - 1 {
      assert xs' == ys';
      var p := Product(xs');
      if xs[i] < ys[i] {
        MulStrict(p, xs[i], ys[i]);
      }
    } else {
      ProductCompare(xs', ys', i);
      var c := xs[n - 1];
      if xs[i] < ys[i] {
        MulStrict(c, Product(xs'), Product(ys'));
      }
    }
  }

  lemma MulStrict(p: int, u: int, v: int)
    requires p >= 1 && u < v
    ensures p * u < p * v && u * p < v * p
  {
    MulAtLeast(p, v - u);
  }

  /** Monotonicity of the score in one stat: if distributions re and re'
      agree on every stat but i, and re' puts more points into stat i, then
      the product grows when the skill depends on stat i and stays the same
      when it does not. */
  lemma RaiseStat(sk: nat, re: nat, re': nat, i: nat)
    requires i < StatCount
    requires forall j :: 0 <= j < StatCount && j != i ==> GetDigit(re', j, Radix) == GetDigit(re, j, Radix)
    requires GetDigit(re, i, Radix) < GetDigit(re', i, Radix)
    ensures GetDigit(sk, i, Radix) > 0 ==> StatProduct(sk, re) < StatProduct(sk, re')
    ensures GetDigit(sk, i, Radix) == 0 ==> StatProduct(sk, re) == StatProduct(sk, re')
  {
    var xs, ys := Factors(sk, re), Factors(sk, re');
    var e := GetDigit(sk, i, Radix);
    if e > 0 {
      PowStrictBase(GetDigit(re, i, Radix) + StatFloor, GetDigit(re', i, Radix) + StatFloor, e);
    }
    ProductCompare(xs, ys, i);
  }

  /** Adding k points to stat i of a distribution, with that stat staying at
      most 15 points, changes digit i by k and no other digit. */
  lemma AddPoints(re: nat, i: nat, k: nat)
    requires i < StatCount && GetDigit(re, i, Radix) + k < Radix
    ensures Pow(Radix, i) >= 1
    ensures GetDigit(re + k * Pow(Radix, i), i, Radix) == GetDigit(re, i, Radix) + k
    ensures forall j :: 0 <= j < StatCount && j != i ==>
      GetDigit(re + k * Pow(Radix, i), j, Radix) == GetDigit(re, j, Radix)
  {
    AddToDigit(re, i, k, Radix);
  }

  /** The monotonicity stated on the encoded numbers: one more point in
      stat i raises the product exactly when the skill depends on stat i. */
  lemma OneMorePoint(sk: nat, re: nat, i: nat)
    requires i < StatCount && GetDigit(re, i, Radix) < Radix - 1
    ensures Pow(Radix, i) >= 1
    ensures GetDigit(sk, i, Radix) > 0 ==> StatProduct(sk, re) < StatProduct(sk, re + Pow(Radix, i))
    ensures GetDigit(sk, i, Radix) == 0 ==> StatProduct(sk, re) == StatProduct(sk, re + Pow(Radix, i))
  {
    PowPositive(Radix, i);
    var re' := re + 1 * Pow(Radix, i);
    AddPoints(re, i, 1);
    RaiseStat(sk, re, re', i);
    assert re' == re + Pow(Radix, i);
  }
}
