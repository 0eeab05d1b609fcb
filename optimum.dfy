/** What the search in rearrange.js finds: over the distributions of 25
    points among five stats of at most 15 points each, the product of
    `statMultiplicator(0x02012, re)` is at most 1444000, and only the
    distributions 0xb02c and 0xc02b reach it. With weights 2, 1, 0, 2, 0 the
    product is a^2 * c * e^2 for the stat values a, c, e of stats 0, 1, 3. */
module Optimum {
  import opened Arith
  import opened Digits
  import opened StatMultiplier

  /** The product of five factors, folded from the left. */
  lemma FiveFold(xs: seq<nat>)
    requires |xs| == 5
    ensures Product(xs) == xs[0] * xs[1] * xs[2] * xs[3] * xs[4]
  {
    assert xs[..1][..0] == [];
    assert xs[..2][..1] == xs[..1];
    assert xs[..3][..2] == xs[..2];
    assert xs[..4][..3] == xs[..3];
    assert Product(xs[..1]) == xs[0];
    assert Product(xs[..2]) == xs[0] * xs[1];
    assert Product(xs[..3]) == xs[0] * xs[1] * xs[2];
    assert Product(xs[..4]) == xs[0] * xs[1] * xs[2] * xs[3];
  }

  lemma SmallPowers(a: int)
    ensures Pow(a, 0) == 1 && Pow(a, 1) == a && Pow(a, 2) == a * a
  {
    assert Pow(a, 1) == a * Pow(a, 0);
    assert Pow(a, 2) == a * Pow(a, 1);
  }

  /** The number whose base-b digits, least significant first, are ds. */
  function Horner(ds: seq<int>, b: int): int
  {
    if ds == [] then 0 else ds[0] + b * Horner(ds[1..], b)
  }

  /** Digit p of Horner(ds, b) is ds[p], when every entry is a digit. */
  lemma {:induction false} HornerDigit(ds: seq<int>, b: int, p: nat)
    requires b >= 1 && p < |ds|
    requires forall k :: 0 <= k < |ds| ==> 0 <= ds[k] < b
    ensures Horner(ds, b) >= 0
    ensures GetDigit(Horner(ds, b), p, b) == ds[p]
    decreases p
  {
    HornerNonNegative(ds[1..], b);
    var y := Horner(ds[1..], b);
    assert Horner(ds, b) == b * y + ds[0];
    if p == 0 {
      GetDigitLow(y, ds[0], b);
    } else {
      GetDigitNext(y, ds[0], p - 1, b);
      HornerDigit(ds[1..], b, p - 1);
    }
  }

  lemma {:induction false} HornerNonNegative(ds: seq<int>, b: int)
    requires b >= 1
    requires forall k :: 0 <= k < |ds| ==> 0 <= ds[k] < b
    ensures Horner(ds, b) >= 0
  {
    if ds != [] {
      HornerNonNegative(ds[1..], b);
      if Horner(ds[1..], b) >= 1 {
        MulAtLeast(b, Horner(ds[1..], b));
      }
    }
  }

  /** The five digits of x when x is written out by them. */
  lemma FiveDigits(x: int, ds: seq<int>, b: int)
    requires b >= 1 && |ds| == 5 && x == Horner(ds, b)
    requires forall k :: 0 <= k < |ds| ==> 0 <= ds[k] < b
    ensures GetDigit(x, 0, b) == ds[0] && GetDigit(x, 1, b) == ds[1] && GetDigit(x, 2, b) == ds[2]
    ensures GetDigit(x, 3, b) == ds[3] && GetDigit(x, 4, b) == ds[4]
  {
    HornerDigit(ds, b, 0);
    HornerDigit(ds, b, 1);
    HornerDigit(ds, b, 2);
    HornerDigit(ds, b, 3);
    HornerDigit(ds, b, 4);
  }

  /** The weights the dependency 0x02012 puts on stats 0 to 4. */
  lemma DependencyDigits(sk: nat)
    requires sk == 0x02012
    ensures GetDigit(sk, 0, Radix) == 2 && GetDigit(sk, 1, Radix) == 1 && GetDigit(sk, 2, Radix) == 0
    ensures GetDigit(sk, 3, Radix) == 2 && GetDigit(sk, 4, Radix) == 0
  {
    FiveDigits(sk, [2, 1, 0, 2, 0], Radix);
  }

  /** The product for 0x02012 in terms of the stat values of stats 0, 1, 3. */
  lemma DependencyProduct(sk: nat, x: nat)
    requires sk == 0x02012
    ensures var a, c, e := GetDigit(x, 0, Radix) + StatFloor, GetDigit(x, 1, Radix) + StatFloor, GetDigit(x, 3, Radix) + StatFloor;
      StatProduct(sk, x) == a * a * c * (e * e)
  {
    DependencyDigits(sk);
    var fs := Factors(sk, x);
    FactorIs(sk, x, 0, 2);
    FactorIs(sk, x, 1, 1);
    FactorIs(sk, x, 2, 0);
    FactorIs(sk, x, 3, 2);
    FactorIs(sk, x, 4, 0);
    FiveFold(fs);
  }

  /** Factor i written out for a weight e in 0 .. 2. */
  lemma FactorIs(sk: nat, x: nat, i: nat, e: nat)
    requires i < StatCount && e <= 2 && GetDigit(sk, i, Radix) == e
    ensures var v := GetDigit(x, i, Radix) + StatFloor;
      Factors(sk, x)[i] == (if e == 0 then 1 else if e == 1 then v else v * v)
  {
    SmallPowers(GetDigit(x, i, Radix) + StatFloor);
  }

  /** A distribution of 25 points: its five digits sum to 25 and spell it. */
  lemma DistributionDigits(x: nat)
    requires HasDigitSum(x, StatCount, 25, Radix)
    ensures var r0, r1, r2, r3, r4 := GetDigit(x, 0, Radix), GetDigit(x, 1, Radix), GetDigit(x, 2, Radix), GetDigit(x, 3, Radix), GetDigit(x, 4, Radix);
      r0 + r1 + r2 + r3 + r4 == 25 &&
      x == r0 + 16 * r1 + 256 * r2 + 4096 * r3 + 65536 * r4
  {
    var b := Radix;
    var r0, r1, r2, r3, r4 := GetDigit(x, 0, b), GetDigit(x, 1, b), GetDigit(x, 2, b), GetDigit(x, 3, b), GetDigit(x, 4, b);
    assert DigitSum(x, 5, b) == DigitSum(x, 4, b) + r4;
    assert DigitSum(x, 4, b) == DigitSum(x, 3, b) + r3;
    assert DigitSum(x, 3, b) == DigitSum(x, 2, b) + r2;
    assert DigitSum(x, 2, b) == DigitSum(x, 1, b) + r1;
    assert DigitSum(x, 1, b) == r0;
    ReconstructRoundTrip(x, StatCount, b);
    PlaceValues(b);
    assert Reconstruct(x, 5, b) == Reconstruct(x, 4, b) + r4 * 65536;
    assert Reconstruct(x, 4, b) == Reconstruct(x, 3, b) + r3 * 4096;
    assert Reconstruct(x, 3, b) == Reconstruct(x, 2, b) + r2 * 256;
    assert Reconstruct(x, 2, b) == Reconstruct(x, 1, b) + r1 * 16;
    assert Reconstruct(x, 1, b) == r0;
  }

  lemma PlaceValues(b: int)
    requires b == Radix
    ensures Pow(b, 0) == 1 && Pow(b, 1) == 16 && Pow(b, 2) == 256 && Pow(b, 3) == 4096
    ensures Pow(b, 4) == 65536 && Pow(b, 5) == 1048576
  {
    assert Pow(b, 1) == b * Pow(b, 0);
    assert Pow(b, 2) == b * Pow(b, 1);
    assert Pow(b, 3) == b * Pow(b, 2);
    assert Pow(b, 4) == b * Pow(b, 3);
    assert Pow(b, 5) == b * Pow(b, 4);
  }

  /** For a stat value c of stat 1, the largest product a * e the other two
      values can have: a + e <= 49 - c, so 4 * a * e <= (49 - c)^2. */
  function Room(c: int): int
  {
    (49 - c) * (49 - c) / 4
  }

  /** Room(c)^2 * c over the possible stat values 8 .. 23, largest at 10. */
  lemma RoomTable(c: int)
    requires 8 <= c <= 23
    ensures Room(c) * Room(c) * c <= 1444000
    ensures Room(c) * Room(c) * c == 1444000 ==> c == 10
  {
    if c == 8 {} else if c == 9 {} else if c == 10 {} else if c == 11 {}
    else if c == 12 {} else if c == 13 {} else if c == 14 {} else if c == 15 {}
    else if c == 16 {} else if c == 17 {} else if c == 18 {} else if c == 19 {}
    else if c == 20 {} else if c == 21 {} else if c == 22 {} else {}
  }

  lemma SquareTimes(p: int, m: int, c: int)
    requires 0 <= p <= m && c >= 1
    ensures p * p * c <= m * m * c
    ensures p < m ==> p * p * c < m * m * c
  {
    assert p * p <= p * m <= m * m;
  }

  lemma SquareMono(t: int, u: int)
    requires 0 <= t <= u
    ensures t * t <= u * u
  {
    assert t * t <= t * u <= u * u;
  }

  lemma AmGm(a: int, e: int)
    ensures 4 * (a * e) <= (a + e) * (a + e)
  {
    assert (a + e) * (a + e) - 4 * (a * e) == (a - e) * (a - e);
  }

  lemma Roots(a: int)
    requires a * (39 - a) == 380
    ensures a == 19 || a == 20
  {
    assert (a - 19) * (a - 20) == 0;
  }

  lemma Regrouped(a: int, c: int, e: int)
    ensures a * a * c * (e * e) == (a * e) * (a * e) * c
  {
  }

  /** The bound for a given stat 1 value c and product p = a * e. */
  lemma BoundGivenStat1(p: int, c: int)
    requires 8 <= c <= 23 && 0 <= p && 4 * p <= (49 - c) * (49 - c)
    ensures p * p * c <= 1444000
    ensures p * p * c == 1444000 ==> c == 10 && p == 380
  {
    SquareTimes(p, Room(c), c);
    RoomTable(c);
  }

  /** The optimisation on the digits themselves: five points counts of at
      most 15 summing to 25 give a product of at most 1444000, reached only
      at (12, 2, 0, 11, 0) and (11, 2, 0, 12, 0). */
  lemma ProductMax(r0: int, r1: int, r2: int, r3: int, r4: int)
    requires 0 <= r0 <= 15 && 0 <= r1 <= 15 && 0 <= r2 <= 15 && 0 <= r3 <= 15 && 0 <= r4 <= 15
    requires r0 + r1 + r2 + r3 + r4 == 25
    ensures (r0 + 8) * (r0 + 8) * (r1 + 8) * ((r3 + 8) * (r3 + 8)) <= 1444000
    ensures (r0 + 8) * (r0 + 8) * (r1 + 8) * ((r3 + 8) * (r3 + 8)) == 1444000 ==>
      r1 == 2 && r2 == 0 && r4 == 0 && ((r0 == 12 && r3 == 11) || (r0 == 11 && r3 == 12))
  {
    var a, c, e := r0 + 8, r1 + 8, r3 + 8;
    var p, t := a * e, a + e;
    Regrouped(a, c, e);
    AmGm(a, e);
    SquareMono(t, 49 - c);
    BoundGivenStat1(p, c);
    if a * a * c * (e * e) == 1444000 {
      if t <= 38 {
        SquareMono(t, 38);
      }
      assert e == 39 - a;
      Roots(a);
    }
  }

  /** Every distribution scores a product of at most 1444000 against
      0x02012, and only 0xb02c and 0xc02b reach it. */
  lemma BestDistribution(sk: nat, x: nat)
    requires sk == 0x02012
    requires HasDigitSum(x, StatCount, 25, Radix)
    ensures StatProduct(sk, x) <= 1444000
    ensures StatProduct(sk, x) == 1444000 ==> x == 0xb02c || x == 0xc02b
  {
    DependencyProduct(sk, x);
    DistributionDigits(x);
    ProductMax(GetDigit(x, 0, Radix), GetDigit(x, 1, Radix), GetDigit(x, 2, Radix), GetDigit(x, 3, Radix), GetDigit(x, 4, Radix));
  }

  /** 0xb02c, that is 12, 2, 0, 11 and 0 points, is a distribution and
      reaches 1444000 = 20^2 * 10 * 19^2. */
  lemma BestAttained(sk: nat, x: nat)
    requires sk == 0x02012 && x == 0xb02c
    ensures HasDigitSum(x, StatCount, 25, Radix)
    ensures StatProduct(sk, x) == 1444000
  {
    var b := Radix;
    FiveDigits(x, [12, 2, 0, 11, 0], b);
    PlaceValues(b);
    assert DigitSum(x, 5, b) == DigitSum(x, 4, b) + 0;
    assert DigitSum(x, 4, b) == DigitSum(x, 3, b) + 11;
    assert DigitSum(x, 3, b) == DigitSum(x, 2, b) + 0;
    assert DigitSum(x, 2, b) == DigitSum(x, 1, b) + 2;
    assert DigitSum(x, 1, b) == 12;
    DependencyProduct(sk, x);
  }
}
